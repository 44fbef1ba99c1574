/** Datatypes and sequence facts shared by the models. */
module Common {

  datatype Option<+T> = None | Some(value: T)

  function Or<T>(o: Option<T>, absent: T): T { if o.Some? then o.value else absent }

  function Min(a: int, b: int): int { if a <= b then a else b }

  function Max(a: int, b: int): int { if a >= b then a else b }

  /** The last `n` elements of `s`, or all of them when there are fewer. */
  function LastN<T>(s: seq<T>, n: nat): (r: seq<T>)
    ensures |r| == Min(|s|, n)
  {
    if |s| <= n then s else s[|s| - n..]
  }

  /** A window that is trimmed after every append is the window of the whole history. */
  lemma LastNOfWindow<T>(s: seq<T>, x: T, n: nat)
    ensures LastN(LastN(s, n) + [x], n) == LastN(s + [x], n)
  {
    if n == 0 {
    } else if |s| <= n {
    } else {
      assert LastN(s, n) + [x] == (s + [x])[|s| - n..];
    }
  }

  lemma Regroup<T>(a: seq<T>, b: seq<T>, c: seq<T>)
    ensures a + b + c == a + (b + c)
  {
  }

  predicate Distinct<T(==)>(s: seq<T>) {
    forall i, j :: 0 <= i < j < |s| ==> s[i] != s[j]
  }

  /** The elements of `s` whose flag in `keep` is `which`, in order. */
  function Select<T>(s: seq<T>, keep: seq<bool>, which: bool): (r: seq<T>)
    requires |s| == |keep|
    decreases |s|
  {
    if s == [] then []
    else
      var rest := Select(s[..|s| - 1], keep[..|s| - 1], which);
      if keep[|s| - 1] == which then rest + [s[|s| - 1]] else rest
  }

  /** Distinct in-memory values of a sequence, first occurrence kept (`list(dict.fromkeys(v))`). */
  function Dedup<T(==,!new)>(v: seq<T>): (r: seq<T>)
    ensures Distinct(r)
    ensures forall x :: x in r <==> x in v
  {
    if v == [] then []
    else
      var rest := Dedup(v[..|v| - 1]);
      assert forall x :: x in v <==> x in v[..|v| - 1] || x == v[|v| - 1];
      if v[|v| - 1] in rest then rest else rest + [v[|v| - 1]]
  }

  /** `r` lists what `v` lists, once each, in the order of first occurrence. */
  predicate FirstOccurrences<T(==)>(v: seq<T>, r: seq<T>) {
    && (forall i, j :: 0 <= i < j < |r| ==> r[i] != r[j])
    && (forall i :: 0 <= i < |r| ==> r[i] in v)
    && (forall n :: 0 <= n < |v| ==> v[n] in r)
    && (forall i, j, n :: 0 <= i < j < |r| && 0 <= n < |v| && v[n] == r[j] ==> r[i] in v[..n])
  }

  lemma {:induction false} DedupKeepsFirst<T(!new)>(v: seq<T>)
    ensures FirstOccurrences(v, Dedup(v))
  {
    if v != [] {
      var m := |v| - 1;
      DedupKeepsFirst(v[..m]);
      var rest, r := Dedup(v[..m]), Dedup(v);
      forall i, j, n | 0 <= i < j < |r| && 0 <= n < |v| && v[n] == r[j] ensures r[i] in v[..n] {
        if n < m { assert v[..m][n] == r[j] && v[..m][..n] == v[..n]; }
      }
    }
  }
}
