/** Small helpers shared by the whole model: an Option type, the handful of
    java.lang.String queries the source relies on, and the enumeration of a
    hash-based collection in an unspecified order. */
module Util {

  datatype Option<T> = None | Some(value: T)

  /** String.startsWith */
  predicate StartsWith(s: string, prefix: string) {
    |prefix| <= |s| && s[..|prefix|] == prefix
  }

  /** String.endsWith */
  predicate EndsWith(s: string, suffix: string) {
    |suffix| <= |s| && s[|s| - |suffix|..] == suffix
  }

  /** `t` occurs in `s` at position `i` */
  predicate OccursAt(s: string, t: string, i: int) {
    0 <= i && i + |t| <= |s| && s[i..i + |t|] == t
  }

  /** String.contains */
  predicate Contains(s: string, t: string) {
    exists i | 0 <= i <= |s| - |t| :: OccursAt(s, t, i)
  }

  /** String.indexOf(String): the first position of `t` in `s`, or -1 */
  function IndexOf(s: string, t: string): (r: int)
    ensures r == -1 || OccursAt(s, t, r)
    ensures r == -1 <==> !Contains(s, t)
    ensures forall j :: 0 <= j < r ==> !OccursAt(s, t, j)
  {
    IndexFrom(s, t, 0)
  }

  function IndexFrom(s: string, t: string, from: nat): (r: int)
    requires from <= |s| + 1
    ensures r == -1 || (from <= r && OccursAt(s, t, r))
    ensures r == -1 <==> forall j :: from <= j <= |s| - |t| ==> !OccursAt(s, t, j)
    ensures forall j :: from <= j < r ==> !OccursAt(s, t, j)
    decreases |s| + 1 - from
  {
    if from + |t| > |s| then -1
    else if OccursAt(s, t, from) then from
    else IndexFrom(s, t, from + 1)
  }

  /** String.lastIndexOf(char): the last position of `c` in `s`, or -1 */
  function LastIndexOf(s: string, c: char): (r: int)
    ensures -1 <= r < |s|
    ensures r >= 0 ==> s[r] == c
    ensures forall j :: r < j < |s| ==> s[j] != c
  {
    if s == [] then -1
    else if s[|s| - 1] == c then |s| - 1
    else LastIndexOf(s[..|s| - 1], c)
  }

  /** Java `String.replace(CharSequence, CharSequence)`: every occurrence of
      `a`, scanned left to right without overlap, becomes `b`. */
  function ReplaceAll(s: string, a: string, b: string): string
    requires |a| > 0
    decreases |s|
  {
    if |s| < |a| then s
    else if s[..|a|] == a then b + ReplaceAll(s[|a|..], a, b)
    else [s[0]] + ReplaceAll(s[1..], a, b)
  }

  lemma {:induction false} ReplaceAllUnchangedWhenAbsent(s: string, a: string, b: string)
    requires |a| > 0
    requires !Contains(s, a)
    ensures ReplaceAll(s, a, b) == s
    decreases |s|
  {
    if |s| >= |a| {
      assert !OccursAt(s, a, 0);
      forall i | 0 <= i <= |s[1..]| - |a| ensures !OccursAt(s[1..], a, i) {
        assert s[1..][i..i + |a|] == s[i + 1..i + 1 + |a|];
        assert !OccursAt(s, a, i + 1);
      }
      ReplaceAllUnchangedWhenAbsent(s[1..], a, b);
      assert [s[0]] + s[1..] == s;
    }
  }

  predicate NoDup<T(==)>(s: seq<T>) {
    forall i, j :: 0 <= i < j < |s| ==> s[i] != s[j]
  }

  /** The prefix one longer is the prefix and the next element. */
  lemma PrefixSnoc<T>(s: seq<T>, j: nat)
    requires j < |s|
    ensures s[..j + 1] == s[..j] + [s[j]]
  {
  }

  /** Without duplicates, no element occurs before its own position. */
  lemma NoDupPrefix<T>(s: seq<T>, j: nat)
    requires NoDup(s) && j < |s|
    ensures s[j] !in s[..j]
  {
    forall i | 0 <= i < j ensures s[..j][i] != s[j] {
      assert s[..j][i] == s[i];
    }
  }

  function Min(a: int, b: int): int { if a < b then a else b }

  function Max(a: int, b: int): int { if a < b then b else a }

  /** Iterating a HashMap's key set or a HashSet: every element exactly once,
      in an order the program does not control. */
  method Enumerate<K(==)>(keys: set<K>) returns (order: seq<K>)
    ensures NoDup(order)
    ensures |order| == |keys|
    ensures forall k :: k in order <==> k in keys
  {
    var rest := keys;
    order := [];
    while rest != {}
      invariant rest !! set k | k in order
      invariant forall k :: k in keys <==> k in order || k in rest
      invariant NoDup(order)
      invariant |order| + |rest| == |keys|
      decreases |rest|
    {
      var k :| k in rest;
      order := order + [k];
      rest := rest - {k};
    }
  }
}
