# VoucherVision `utils_LLM.py`: prompt sanitiser and GPU capability survey

This project models two routines of VoucherVision's LLM utility module:

- **`sanitize_prompt`** walks a JSON-like prompt value. It rebuilds every
  dict through a comprehension that sanitises keys and values. It maps every
  list element by element. It passes every string through
  `encode('utf-8', 'ignore').decode('utf-8')` and returns any other value
  unchanged. A Python `str` is a sequence of code points
  0..0x10FFFF, and the only ones UTF-8 cannot carry are the surrogates
  U+D800..U+DFFF. So the string step removes exactly the surrogates and
  keeps everything else in order.
- **The VRAM classification of `check_system_gpus`**: one loop over the GPU
  list, which fills `gpu_dict` under the keys `GPU_0`, `GPU_1`, … and adds
  up the memory in MB. Then the total is converted to GB. Last, a first-match search over
  the ordered `capability_score_map` gives the class; its `for … else`
  falls back to `class_max`.

Modules:

- `Utf8` (`utf8.dfy`): the code point and byte types. It holds the UTF-8
  encoder with the `'ignore'` handler (Table 3-6 of section 3.9 of the
  Unicode Standard) and the strict decoder (Table 3-7). It also holds the
  reference filter `DropSurrogates` and the round trips that connect the
  three.
- `PyDict` (`pydict.dfy`): a Python dict as the sequence of its entries in
  insertion order. `Store` is `d[k] = v`: an existing key keeps its position
  and takes the new value, a new key is appended. `FromPairs` is a dict
  comprehension, i.e. one `Store` per generated pair, from left to right.
- `Prompt` (`prompt.dfy`): the value tree and `Sanitize`.
- `Gpus` (`gpus.dfy`): the key format, the survey loop, the threshold
  table `capability_score_map` as the constant `Gpus.CapabilityTable` (its
  thresholds 0, 10, 14, 18, 26, 50, 100 and infinity, in insertion order),
  the search loop and their properties.

The string step works on a `str`, not on bytes. `encode` with `'ignore'`
drops the code points it cannot encode, which are the surrogates, and the
following `decode` never fails. The model proves that the decode cannot
fail (`Utf8.SanitizeString`) and that the sanitiser is idempotent on every
value of the model (`Prompt.SanitizeIdempotent`).

## Model

| member | source | states |
|---|---|---|
| Utf8.SanitizeString | vouchervision/utils_LLM.py:84 | decoding the `'ignore'` encoding of a string never raises, and what it returns holds no surrogate |
| Utf8.IgnoreRoundTrip | vouchervision/utils_LLM.py:84 | `decode(encode(s, 'ignore'))` succeeds and equals `s` with every surrogate removed and every other code point kept in order |
| Utf8.DecodeIsInverse | vouchervision/utils_LLM.py:84 | every byte string the strict decoder accepts decodes to a surrogate-free string whose encoding is those same bytes (decode is the inverse of encode) |
| Utf8.DecodeFirstIsEncoding | vouchervision/utils_LLM.py:84 | the code point the decoder reads at the head of a byte string, and its length, are exactly those of that code point's UTF-8 form |
| Utf8.DecodeFirstEncodeScalar | vouchervision/utils_LLM.py:84 | the decoder reads the UTF-8 form of any non-surrogate code point back as that code point, whatever bytes follow it |
| Utf8.EncodeIgnore | vouchervision/utils_LLM.py:84 | `s.encode('utf-8', 'ignore')`: at most four bytes per code point; what the bytes are is stated by `Utf8.IgnoreRoundTrip` and `Utf8.DecodeIsInverse` (the strict decode of the encoding is the input minus its surrogates, and encoding is the inverse of decoding) |
| Utf8.Decode | vouchervision/utils_LLM.py:84 | `bs.decode('utf-8')`, None for the decode error: every code point it returns takes at least one byte; which bytes it accepts and what it reads is stated by `Utf8.DecodeFirstIsEncoding` and `Utf8.DecodeIsInverse` |
| Utf8.DropSurrogatesMembers | vouchervision/utils_LLM.py:84 | a code point occurs in the sanitised string exactly when it occurs in the input and is not a surrogate |
| Utf8.DropSurrogatesIdentity | vouchervision/utils_LLM.py:84 | a string comes back unchanged exactly when it holds no surrogate |
| Utf8.DropSurrogatesIdempotent | vouchervision/utils_LLM.py:84 | removing the surrogates twice gives the same string as removing them once |
| Utf8.DropSurrogatesAppend | vouchervision/utils_LLM.py:84 | the string step works code point by code point: it commutes with concatenation |
| Prompt.Sanitize | vouchervision/utils_LLM.py:78-86 | the result has no surrogate in any string and distinct keys in every dict. A dict, list or string stays one. A string becomes what the decoder returns for its `'ignore'` encoding. A list keeps its length. A dict has at most as many entries. Any other value is returned as it is |
| Prompt.SanitizeStr | vouchervision/utils_LLM.py:83-84 | a string becomes exactly its non-surrogate code points in order; a code point is in the result iff it is in the input and is not a surrogate; the string is unchanged iff it has no surrogate |
| Prompt.SanitizeList | vouchervision/utils_LLM.py:81-82 | a list becomes a list of the same length whose i-th element is the sanitised i-th element |
| Prompt.SanitizeDictLastWins | vouchervision/utils_LLM.py:79-80 | every entry of the sanitised dict is the sanitised pair of some input entry, and no later input entry sanitises to the same key (the later entry wins) |
| Prompt.SanitizeDictKeys | vouchervision/utils_LLM.py:79-80 | every sanitised input key is a key of the result |
| Prompt.SanitizeDictNoCollision | vouchervision/utils_LLM.py:79-80 | when the sanitised keys are pairwise distinct, the result holds one entry per input entry, the sanitised pair, in the input's order |
| Prompt.SanitizeIdentity | vouchervision/utils_LLM.py:78-86 | on a value whose dicts have distinct keys, the sanitiser returns its input exactly when no string at any depth holds a surrogate |
| Prompt.SanitizeIdempotent | vouchervision/utils_LLM.py:78-86 | sanitising a sanitised value changes nothing |
| PyDict.FromPairs | vouchervision/utils_LLM.py:80 | a dict comprehension yields distinct keys and no more entries than pairs generated |
| PyDict.Store | vouchervision/utils_LLM.py:80 | `d[k] = v`: keys stay distinct; an existing key keeps its position and takes the new value, every other entry keeps its position, and a new key is appended at the end; `PyDict.StoreEntries` states the resulting set of entries |
| PyDict.StoreNewKey | vouchervision/utils_LLM.py:227 | assigning a key the dict does not hold, as each fresh `GPU_{i}` is, appends exactly that pair |
| PyDict.StoreEntries | vouchervision/utils_LLM.py:80 | after `d[k] = v` the entries are the new pair plus the old entries under every other key |
| PyDict.FromPairsLastWins | vouchervision/utils_LLM.py:80 | every entry of a comprehension's dict is a generated pair that no later pair overrides |
| PyDict.FromPairsKeys | vouchervision/utils_LLM.py:80 | every generated key is a key of the dict |
| PyDict.FromPairsDistinct | vouchervision/utils_LLM.py:80 | pairs with distinct keys give a dict holding exactly those pairs, in order |
| Gpus.Decimal | vouchervision/utils_LLM.py:227 | the index in `GPU_{i}` is written as a non-empty string of decimal digits with no leading zero |
| Gpus.ParseDecimalRoundTrip | vouchervision/utils_LLM.py:227 | reading back the decimal form of an index gives the index |
| Gpus.GpuKey | vouchervision/utils_LLM.py:227 | `f"GPU_{i}"`: the text `GPU_` followed by decimal digits; `Gpus.GpuKeyInjective` states that distinct GPUs get distinct keys |
| Gpus.GpuKeyInjective | vouchervision/utils_LLM.py:227 | two GPUs with the same `GPU_{i}` key have the same index |
| Gpus.Sum | vouchervision/utils_LLM.py:225-230 | the left-to-right total the loop accumulates (no contract of its own): `Gpus.SurveyGpus` proves the loop computes it, and `Gpus.SumNonNegative` and `Gpus.SumZero` state its properties |
| Gpus.SumNonNegative | vouchervision/utils_LLM.py:225-230 | the total of memory sizes that are not negative is not negative |
| Gpus.SumZero | vouchervision/utils_LLM.py:225-230 | such a total is zero exactly when every GPU reports 0 MB |
| Gpus.SurveyGpus | vouchervision/utils_LLM.py:225-228 | the loop leaves one `gpu_dict` entry per GPU, in order, under `GPU_{i}` with that GPU's size in GB, and a total equal to the sum of the sizes in MB |
| Gpus.CheckSystemGpus | vouchervision/utils_LLM.py:215-252 | returns the GPU count, `gpu_dict` with keys `GPU_0`..`GPU_{n-1}` (distinct, each GPU's size in GB, in order), the total in GB as the sum in MB over 1024, and the class the first-match search assigns to that total |
| Gpus.FirstFit | vouchervision/utils_LLM.py:245-250 | the position found is the first table entry whose bound admits the total: no earlier entry admits it and the found one does, or the table's length when none does |
| Gpus.ClassOf | vouchervision/utils_LLM.py:244-250 | the class the `for … else` settles on (no contract of its own): the name at the position `Gpus.FirstFit` finds, whose contract is the first-match rule, or `class_max`; `Gpus.CapabilityScore` proves the loop returns it |
| Gpus.CapabilityScore | vouchervision/utils_LLM.py:244-250 | the search loop returns the name of the first class whose threshold is at least the total, or `class_max` when none is |
| Gpus.FirstFitMonotone | vouchervision/utils_LLM.py:245-248 | for any table, a larger total never lands in an earlier class |
| Gpus.NeverClassMax | vouchervision/utils_LLM.py:240-250 | the last threshold is infinite, so the search always finds a class and `class_max` is never returned |
| Gpus.NoGpuClass | vouchervision/utils_LLM.py:232-248 | a total is classed `no_gpu` exactly when it is at most 0 GB |
| Gpus.NoGpuIffNoMemory | vouchervision/utils_LLM.py:225-248 | with memory sizes that are not negative, the machine is classed `no_gpu` exactly when every GPU reports 0 MB, including the machine with no GPU |
| Gpus.FirstFitInterval | vouchervision/utils_LLM.py:232-248 | in a table with strictly rising thresholds, a class takes exactly the totals above the previous threshold and within its own |
| Gpus.EveryClassReachable | vouchervision/utils_LLM.py:232-248 | every class of the table is the answer for some total |

## Left out

- `run_tools`, `count_tokens`, `save_individual_prompt` and the class
  `SystemLoadMonitor`: thread pools, tokenizer libraries, file writes and
  timed resource polling, none of which the sanitiser or the GPU survey uses.
- The device query and console output of `check_system_gpus`: the calls to
  `torch` and `GPUtil` and the `print`. The list of per-GPU `memoryTotal` values (MB) is an
  input to `Gpus.CheckSystemGpus`.
- Gpus.CheckSystemGpus: each `gpu_dict` value is the GB figure as a number,
  not the text `f"{gpu_vram / 1024} GB"`, because float-to-text formatting
  is not modelled.
- Gpus.CheckSystemGpus: sizes and totals are exact reals, not IEEE doubles,
  so rounding in the sum and the division is not modelled. Neither is a NaN
  total, which would fail every comparison and reach `class_max`.
- Gpus.NoGpuIffNoMemory: needs every size to be non-negative. This is what
  real drivers report, but nothing in the code checks it.
- Prompt.Sanitize: values other than `str`, `list` and `dict` (numbers,
  `None`, tuples, sets) are one opaque kind carrying an integer. The
  sanitiser returns them unchanged, so strings inside a tuple are not
  sanitised in the model either.
- Prompt.Sanitize: dict keys are compared by structural equality of the
  model's values. Python's cross-type key equality (`1 == 1.0 == True`)
  and hashing are not modelled. Neither is the rule that lists and dicts
  cannot be keys.
- Prompt.Sanitize: values are finite trees. The model does not cover
  containers that are shared or that contain themselves, nor the
  `RecursionError` Python raises on a cyclic input or on one nested deeper
  than the recursion limit.
- Utf8.Decode: a failed decode is `None`. The position and message of
  Python's `UnicodeDecodeError` are not modelled, and the sanitiser never
  reaches that path (`Utf8.SanitizeString`).
