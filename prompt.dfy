/** `sanitize_prompt`: a structure-preserving walk over a JSON-like value
    that re-encodes every string with `encode('utf-8', 'ignore')` and decodes
    it again, which removes the surrogate code points a Python `str` may hold
    but UTF-8 cannot carry. */
module Prompt {

  import opened Utf8
  import opened PyDict

  /** The values the sanitiser distinguishes: `str`, `list`, `dict` (its
      entries in insertion order) and everything else, which it passes
      through untouched and which the model keeps opaque. */
  datatype Value =
    | Str(s: seq<CodePoint>)
    | List(items: seq<Value>)
    | Dict(entries: seq<(Value, Value)>)
    | Other(x: int)

  /** Every dict in `v`, at any depth, has distinct keys, as a Python dict
      always does. */
  ghost predicate WellFormed(v: Value)
    decreases v
  {
    match v
    case Str(_) => true
    case List(items) => forall i :: 0 <= i < |items| ==> WellFormed(items[i])
    case Dict(es) =>
      DistinctKeys(es) && forall i :: 0 <= i < |es| ==> WellFormed(es[i].0) && WellFormed(es[i].1)
    case Other(_) => true
  }

  /** No string in `v`, at any depth of a list or dict, holds a surrogate. */
  ghost predicate NoSurrogates(v: Value)
    decreases v
  {
    match v
    case Str(s) => SurrogateFree(s)
    case List(items) => forall i :: 0 <= i < |items| ==> NoSurrogates(items[i])
    case Dict(es) => forall i :: 0 <= i < |es| ==> NoSurrogates(es[i].0) && NoSurrogates(es[i].1)
    case Other(_) => true
  }

  /** `sanitize_prompt(data)` */
  function Sanitize(v: Value): (r: Value)
    ensures WellFormed(r) && NoSurrogates(r)
    ensures v.Str? <==> r.Str?
    ensures v.Str? ==> Decode(EncodeIgnore(v.s)) == Some(r.s)
    ensures v.List? <==> r.List?
    ensures v.List? ==> |r.items| == |v.items|
    ensures v.Dict? <==> r.Dict?
    ensures v.Dict? ==> |r.entries| <= |v.entries|
    ensures v.Other? ==> r == v
    decreases v, 1
  {
    match v
    case Dict(es) =>
      var ps := SanitizedPairs(es);
      var d := FromPairs(ps);
      assert WellFormed(Dict(d)) && NoSurrogates(Dict(d)) by {
        forall i | 0 <= i < |d|
          ensures WellFormed(d[i].0) && WellFormed(d[i].1)
          ensures NoSurrogates(d[i].0) && NoSurrogates(d[i].1)
        {
          FromPairsMember(ps, d[i]);
        }
      }
      Dict(d)
    case List(items) => List(seq(|items|, i requires 0 <= i < |items| => Sanitize(items[i])))
    case Str(s) => Str(SanitizeString(s))
    case Other(_) => v
  }

  /** The pairs the dict comprehension of `sanitize_prompt` generates, in
      order. */
  function SanitizedPairs(es: seq<(Value, Value)>): (ps: seq<(Value, Value)>)
    ensures |ps| == |es|
    decreases Dict(es), 0
    ensures forall i :: 0 <= i < |es| ==> ps[i] == (Sanitize(es[i].0), Sanitize(es[i].1))
  {
    seq(|es|, i requires 0 <= i < |es| => (Sanitize(es[i].0), Sanitize(es[i].1)))
  }

  /** A string keeps exactly its non-surrogate code points, in order, and
      is returned as it is exactly when it holds no surrogate. */
  lemma SanitizeStr(s: seq<CodePoint>)
    ensures Sanitize(Str(s)) == Str(DropSurrogates(s))
    ensures forall c: CodePoint :: c in Sanitize(Str(s)).s <==> c in s && !IsSurrogate(c)
    ensures Sanitize(Str(s)) == Str(s) <==> SurrogateFree(s)
  {
    var r := DropSurrogates(s);
    assert Sanitize(Str(s)) == Str(r);
    forall c: CodePoint ensures c in r <==> c in s && !IsSurrogate(c) {
      DropSurrogatesMembers(s, c);
    }
    DropSurrogatesIdentity(s);
  }

  /** A list becomes a list of the same length whose i-th element is the
      sanitised i-th element. */
  lemma SanitizeList(items: seq<Value>)
    ensures var r := Sanitize(List(items));
      r.List? && |r.items| == |items| &&
      forall i :: 0 <= i < |items| ==> r.items[i] == Sanitize(items[i])
  {
  }

  /** A dict becomes the dict that the comprehension builds from the
      sanitised pairs. */
  lemma SanitizeDict(es: seq<(Value, Value)>)
    ensures Sanitize(Dict(es)) == Dict(FromPairs(SanitizedPairs(es)))
  {
  }

  /** On a key collision the later entry wins: every entry of the result is
      the sanitised pair of the last input entry whose key sanitises to its
      key. */
  lemma SanitizeDictLastWins(es: seq<(Value, Value)>, e: (Value, Value))
    requires e in Sanitize(Dict(es)).entries
    ensures exists i :: LastFor(SanitizedPairs(es), i, e)
  {
    SanitizeDict(es);
    FromPairsLastWins(SanitizedPairs(es), e);
  }

  /** Every sanitised input key is a key of the result. */
  lemma SanitizeDictKeys(es: seq<(Value, Value)>, i: nat)
    requires i < |es|
    ensures exists e :: e in Sanitize(Dict(es)).entries && e.0 == Sanitize(es[i].0)
  {
    SanitizeDict(es);
    FromPairsKeys(SanitizedPairs(es), i);
  }

  /** When the sanitised keys are pairwise distinct nothing is lost: the
      result holds the sanitised pairs in the input's order. */
  lemma SanitizeDictNoCollision(es: seq<(Value, Value)>)
    requires forall i, j :: 0 <= i < j < |es| ==> Sanitize(es[i].0) != Sanitize(es[j].0)
    ensures var d := Sanitize(Dict(es)).entries;
      |d| == |es| && forall i :: 0 <= i < |es| ==> d[i] == (Sanitize(es[i].0), Sanitize(es[i].1))
  {
    SanitizeDict(es);
    FromPairsDistinct(SanitizedPairs(es));
  }

  /** On a Python value (every dict with distinct keys) the sanitiser
      changes nothing exactly when no string in it holds a surrogate. */
  lemma {:induction false} SanitizeIdentity(v: Value)
    requires WellFormed(v)
    ensures Sanitize(v) == v <==> NoSurrogates(v)
    decreases v
  {
    if NoSurrogates(v) {
      match v
      case Str(s) =>
        DropSurrogatesIdentity(s);
      case List(items) =>
        forall i | 0 <= i < |items| ensures Sanitize(items[i]) == items[i] {
          SanitizeIdentity(items[i]);
        }
      case Dict(es) =>
        forall i | 0 <= i < |es|
          ensures Sanitize(es[i].0) == es[i].0 && Sanitize(es[i].1) == es[i].1
        {
          SanitizeIdentity(es[i].0);
          SanitizeIdentity(es[i].1);
        }
        assert SanitizedPairs(es) == es;
        FromPairsDistinct(es);
      case Other(_) =>
    }
  }

  /** Sanitising twice gives the same value as sanitising once. */
  lemma SanitizeIdempotent(v: Value)
    ensures Sanitize(Sanitize(v)) == Sanitize(v)
  {
    SanitizeIdentity(Sanitize(v));
  }
}
