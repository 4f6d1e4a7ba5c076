/** The VRAM survey of `check_system_gpus`: list the GPUs, add up their
    memory, and classify the total against an ordered table of capability
    classes. The GPU list, which the program obtains from the driver, is an
    input here: the `memoryTotal` of each GPU in MB. */
module Gpus {

  import opened PyDict

  // ---------------------------------------------------------------------
  // The `GPU_<i>` keys

  function DigitChar(d: nat): (c: char)
    requires d < 10
    ensures '0' <= c <= '9' && c as int - '0' as int == d
  {
    ('0' as int + d) as char
  }

  predicate AllDigits(s: string) {
    forall i :: 0 <= i < |s| ==> '0' <= s[i] <= '9'
  }

  /** `str(n)` for a non-negative int: its decimal digits, no leading zero. */
  function Decimal(n: nat): (s: string)
    ensures |s| >= 1 && AllDigits(s)
    ensures |s| > 1 ==> s[0] != '0'
  {
    if n < 10 then [DigitChar(n)] else Decimal(n / 10) + [DigitChar(n % 10)]
  }

  /** `int(s)` for a string of decimal digits. */
  function ParseDecimal(s: string): (n: nat)
    requires AllDigits(s)
  {
    if s == [] then 0
    else ParseDecimal(s[..|s| - 1]) * 10 + (s[|s| - 1] as int - '0' as int)
  }

  lemma {:induction false} ParseDecimalRoundTrip(n: nat)
    ensures ParseDecimal(Decimal(n)) == n
  {
    if n >= 10 {
      var s := Decimal(n);
      assert s[..|s| - 1] == Decimal(n / 10);
      ParseDecimalRoundTrip(n / 10);
    }
  }

  /** `f"GPU_{i}"` */
  function GpuKey(i: nat): (key: string)
    ensures |key| >= 5 && key[..4] == "GPU_" && AllDigits(key[4..])
  {
    "GPU_" + Decimal(i)
  }

  /** Distinct GPUs get distinct keys. */
  lemma GpuKeyInjective(i: nat, j: nat)
    requires GpuKey(i) == GpuKey(j)
    ensures i == j
  {
    assert GpuKey(i)[4..] == Decimal(i);
    assert GpuKey(j)[4..] == Decimal(j);
    ParseDecimalRoundTrip(i);
    ParseDecimalRoundTrip(j);
  }

  // ---------------------------------------------------------------------
  // Total VRAM

  /** The left-to-right sum the loop accumulates. */
  function Sum(xs: seq<real>): (total: real) {
    if xs == [] then 0.0 else Sum(xs[..|xs| - 1]) + xs[|xs| - 1]
  }

  /** One more loop iteration adds the next element. */
  lemma SumNext(xs: seq<real>, i: nat)
    requires i < |xs|
    ensures Sum(xs[..i + 1]) == Sum(xs[..i]) + xs[i]
  {
    assert xs[..i + 1][..i] == xs[..i];
  }

  /** Memory sizes are never negative, so neither is their total. */
  lemma {:induction false} SumNonNegative(xs: seq<real>)
    requires forall i :: 0 <= i < |xs| ==> 0.0 <= xs[i]
    ensures 0.0 <= Sum(xs)
    decreases |xs|
  {
    if xs != [] {
      SumNonNegative(xs[..|xs| - 1]);
    }
  }

  /** A total of sizes that are not negative is zero exactly when every
      size is. */
  lemma {:induction false} SumZero(xs: seq<real>)
    requires forall i :: 0 <= i < |xs| ==> 0.0 <= xs[i]
    ensures Sum(xs) == 0.0 <==> forall i :: 0 <= i < |xs| ==> xs[i] == 0.0
    decreases |xs|
  {
    if xs != [] {
      SumNonNegative(xs[..|xs| - 1]);
      SumZero(xs[..|xs| - 1]);
    }
  }

  // ---------------------------------------------------------------------
  // Capability classes

  /** A class admits a total up to its bound; the last class has the bound
      `float('inf')` and admits every total. */
  datatype Bound = AtMost(gb: real) | Unbounded

  predicate Fits(x: real, b: Bound) {
    b.Unbounded? || x <= b.gb
  }

  /** `capability_score_map`, in its insertion order. */
  const CapabilityTable: seq<(string, Bound)> := [
    ("no_gpu", AtMost(0.0)),
    ("class_8GB", AtMost(10.0)),
    ("class_12GB", AtMost(14.0)),
    ("class_16GB", AtMost(18.0)),
    ("class_24GB", AtMost(26.0)),
    ("class_48GB", AtMost(50.0)),
    ("class_96GB", AtMost(100.0)),
    ("class_96GBplus", Unbounded)
  ]

  /** The class of the `for ... else` branch, taken when no entry fits. */
  const ClassMax := "class_max"

  /** The position of the first entry of `table` that admits `x`, or
      `|table|` when none does. */
  function FirstFit(table: seq<(string, Bound)>, x: real): (k: nat)
    ensures k <= |table|
    ensures forall j :: 0 <= j < k ==> !Fits(x, table[j].1)
    ensures k < |table| ==> Fits(x, table[k].1)
  {
    if table == [] then 0
    else if Fits(x, table[0].1) then 0
    else 1 + FirstFit(table[1..], x)
  }

  /** The class the first-match search settles on. */
  function ClassOf(table: seq<(string, Bound)>, x: real): (cls: string) {
    var k := FirstFit(table, x);
    if k < |table| then table[k].0 else ClassMax
  }

  /** The search loop of `check_system_gpus`. */
  method CapabilityScore(totalVramGb: real) returns (score: string)
    ensures score == ClassOf(CapabilityTable, totalVramGb)
  {
    score := "no_gpu";
    var i := 0;
    while i < |CapabilityTable|
      invariant 0 <= i <= |CapabilityTable|
      invariant forall j :: 0 <= j < i ==> !Fits(totalVramGb, CapabilityTable[j].1)
    {
      if Fits(totalVramGb, CapabilityTable[i].1) {
        score := CapabilityTable[i].0;
        return;
      }
      i := i + 1;
    }
    score := ClassMax;
  }

  /** `d` holds, in order, the entries the loop of `check_system_gpus` has
      written for the first `n` GPUs. */
  ghost predicate GpuEntries(d: seq<(string, real)>, memoryTotalMb: seq<real>, n: nat) {
    n <= |memoryTotalMb| && |d| == n &&
    forall j :: 0 <= j < n ==> d[j] == (GpuKey(j), memoryTotalMb[j] / 1024.0)
  }

  lemma GpuEntriesDistinct(d: seq<(string, real)>, memoryTotalMb: seq<real>, n: nat)
    requires GpuEntries(d, memoryTotalMb, n)
    ensures DistinctKeys(d)
  {
    forall i, j | 0 <= i < j < |d| ensures d[i].0 != d[j].0 {
      if d[i].0 == d[j].0 { GpuKeyInjective(i, j); }
    }
  }

  /** Storing the next GPU appends its entry: its key is new. */
  lemma StoreNextGpu(d: seq<(string, real)>, memoryTotalMb: seq<real>, n: nat)
    requires GpuEntries(d, memoryTotalMb, n) && n < |memoryTotalMb|
    ensures DistinctKeys(d)
    ensures GpuEntries(Store(d, GpuKey(n), memoryTotalMb[n] / 1024.0), memoryTotalMb, n + 1)
  {
    GpuEntriesDistinct(d, memoryTotalMb, n);
    forall j | 0 <= j < |d| ensures d[j].0 != GpuKey(n) {
      if d[j].0 == GpuKey(n) { GpuKeyInjective(j, n); }
    }
    StoreNewKey(d, GpuKey(n), memoryTotalMb[n] / 1024.0);
  }

  /** The loop of `check_system_gpus` over the GPU list: `gpu_dict` and
      the total in MB. */
  method SurveyGpus(memoryTotalMb: seq<real>) returns (gpuDict: seq<(string, real)>, totalVram: real)
    ensures GpuEntries(gpuDict, memoryTotalMb, |memoryTotalMb|)
    ensures totalVram == Sum(memoryTotalMb)
  {
    gpuDict := [];
    totalVram := 0.0;
    for i := 0 to |memoryTotalMb|
      invariant GpuEntries(gpuDict, memoryTotalMb, i)
      invariant totalVram == Sum(memoryTotalMb[..i])
    {
      var gpuVram := memoryTotalMb[i];
      StoreNextGpu(gpuDict, memoryTotalMb, i);
      gpuDict := Store(gpuDict, GpuKey(i), gpuVram / 1024.0);
      SumNext(memoryTotalMb, i);
      totalVram := totalVram + gpuVram;
    }
    assert memoryTotalMb[..|memoryTotalMb|] == memoryTotalMb;
  }

  /** `check_system_gpus()` on the given per-GPU `memoryTotal` values (MB):
      the GPU count, `gpu_dict` (the GB figure of each GPU under
      `GPU_<i>`, in order), the total in GB and the capability class. */
  method CheckSystemGpus(memoryTotalMb: seq<real>)
    returns (numGpus: nat, gpuDict: seq<(string, real)>, totalVramGb: real, capabilityScore: string)
    ensures numGpus == |memoryTotalMb|
    ensures |gpuDict| == numGpus
    ensures forall i :: 0 <= i < numGpus ==> gpuDict[i] == (GpuKey(i), memoryTotalMb[i] / 1024.0)
    ensures DistinctKeys(gpuDict)
    ensures totalVramGb == Sum(memoryTotalMb) / 1024.0
    ensures capabilityScore == ClassOf(CapabilityTable, totalVramGb)
  {
    numGpus := |memoryTotalMb|;
    var totalVram;
    gpuDict, totalVram := SurveyGpus(memoryTotalMb);
    GpuEntriesDistinct(gpuDict, memoryTotalMb, numGpus);
    totalVramGb := totalVram / 1024.0;
    capabilityScore := CapabilityScore(totalVramGb);
  }

  // ---------------------------------------------------------------------
  // Properties of the classification

  /** A larger total never lands in a class earlier in the table; this
      holds for any table. */
  lemma {:induction false} FirstFitMonotone(table: seq<(string, Bound)>, x: real, y: real)
    requires x <= y
    ensures FirstFit(table, x) <= FirstFit(table, y)
  {
    var k := FirstFit(table, y);
    if k < |table| {
      assert Fits(x, table[k].1);
    }
  }

  /** The last bound is infinite, so the `else` branch is never taken and
      `class_max` never returned. */
  lemma NeverClassMax(x: real)
    ensures FirstFit(CapabilityTable, x) < |CapabilityTable|
    ensures ClassOf(CapabilityTable, x) != ClassMax
  {
    assert Fits(x, CapabilityTable[7].1);
  }

  /** A total is classed `no_gpu` exactly when it is at most 0 GB, which
      includes the 0 GB a machine without GPUs reports; every positive total
      gets a later class. */
  lemma NoGpuClass(x: real)
    ensures ClassOf(CapabilityTable, x) == "no_gpu" <==> x <= 0.0
  {
    NeverClassMax(x);
    var k := FirstFit(CapabilityTable, x);
    if x <= 0.0 {
      assert k == 0;
    } else {
      assert k != 0;
      assert CapabilityTable[k].0 != "no_gpu";
    }
  }

  /** With memory sizes that are not negative, the machine is classed
      `no_gpu` exactly when every GPU reports 0 MB, which includes a
      machine without GPUs. */
  lemma NoGpuIffNoMemory(memoryTotalMb: seq<real>, totalVramGb: real)
    requires forall i :: 0 <= i < |memoryTotalMb| ==> 0.0 <= memoryTotalMb[i]
    requires totalVramGb == Sum(memoryTotalMb) / 1024.0
    ensures ClassOf(CapabilityTable, totalVramGb) == "no_gpu" <==>
      forall i :: 0 <= i < |memoryTotalMb| ==> memoryTotalMb[i] == 0.0
  {
    SumNonNegative(memoryTotalMb);
    SumZero(memoryTotalMb);
    NoGpuClass(totalVramGb);
  }

  /** The finite bounds rise strictly along the table and the unbounded one
      comes last. */
  ghost predicate Increasing(table: seq<(string, Bound)>) {
    forall i, j :: 0 <= i < j < |table| ==>
      table[i].1.AtMost? && (table[j].1.Unbounded? || table[i].1.gb < table[j].1.gb)
  }

  /** In an increasing table each class holds exactly the totals above the
      previous bound and within its own. */
  lemma FirstFitInterval(table: seq<(string, Bound)>, x: real, k: nat)
    requires Increasing(table)
    requires k < |table|
    ensures FirstFit(table, x) == k <==> Fits(x, table[k].1) && (k == 0 || !Fits(x, table[k - 1].1))
  {
  }

  /** A total that an increasing table places in class `k`: the bound of
      that class, or one more than the previous bound for the unbounded
      class. */
  function Witness(table: seq<(string, Bound)>, k: nat): (x: real)
    requires Increasing(table) && k < |table|
  {
    match table[k].1
    case AtMost(gb) => gb
    case Unbounded => if k == 0 then 0.0 else table[k - 1].1.gb + 1.0
  }

  lemma WitnessReaches(table: seq<(string, Bound)>, k: nat)
    requires Increasing(table) && k < |table|
    ensures FirstFit(table, Witness(table, k)) == k
  {
    FirstFitInterval(table, Witness(table, k), k);
  }

  lemma CapabilityTableIncreasing()
    ensures Increasing(CapabilityTable)
  {
  }

  /** Every class of the table is reached by some total. */
  lemma EveryClassReachable(k: nat)
    requires k < |CapabilityTable|
    ensures exists x: real :: ClassOf(CapabilityTable, x) == CapabilityTable[k].0
  {
    CapabilityTableIncreasing();
    WitnessReaches(CapabilityTable, k);
    assert ClassOf(CapabilityTable, Witness(CapabilityTable, k)) == CapabilityTable[k].0;
  }
}
