/**
 * The pieces of the Java runtime the store relies on: references that may be null,
 * how a call ends, String.trim, String.contains, List.indexOf, List.remove(Object)
 * and the iteration order of a HashMap.
 */
module Common {

  /** A reference that may be null. */
  datatype Option<T> = None | Some(value: T)

  /** How a void method ends: it returns, or a NullPointerException escapes from it. */
  datatype Outcome = Normal | NullPointer

  /** How a value-returning method ends. */
  datatype Result<T> = Returned(value: T) | ThrewNullPointer

  /** How a call ends, forgetting the value it returns. */
  function OutcomeOf<T>(r: Result<T>): Outcome {
    if r.ThrewNullPointer? then NullPointer else Normal
  }

  // ---------------------------------------------------------------------------
  // String.trim

  /** String.trim strips every leading and trailing char whose code is at most U+0020. */
  predicate IsTrimmable(c: char) {
    c <= ' '
  }

  /** Every char of `s` is one that trim strips, so `s.trim().isEmpty()` holds. */
  predicate IsBlank(s: string) {
    forall i :: 0 <= i < |s| ==> IsTrimmable(s[i])
  }

  /** `s` without its leading trimmable chars: a suffix of `s`. */
  function TrimStart(s: string): (r: string)
    ensures |r| <= |s| && r == s[|s| - |r|..]
    ensures IsBlank(s[..|s| - |r|])
    ensures r == [] || !IsTrimmable(r[0])
  {
    if s != [] && IsTrimmable(s[0]) then TrimStart(s[1..]) else s
  }

  /** `s` without its trailing trimmable chars: a prefix of `s`. */
  function TrimEnd(s: string): (r: string)
    ensures |r| <= |s| && r == s[..|r|]
    ensures IsBlank(s[|r|..])
    ensures r == [] || !IsTrimmable(r[|r| - 1])
  {
    if s != [] && IsTrimmable(s[|s| - 1]) then TrimEnd(s[..|s| - 1]) else s
  }

  /** String.trim. */
  function Trim(s: string): (r: string)
    ensures |r| <= |s|
    ensures r == [] <==> IsBlank(s)
    ensures r == [] || (!IsTrimmable(r[0]) && !IsTrimmable(r[|r| - 1]))
    ensures exists a, b :: 0 <= a <= b <= |s| && r == s[a..b] && IsBlank(s[..a]) && IsBlank(s[b..])
  {
    var t := TrimStart(s);
    var r := TrimEnd(t);
    TrimIsSlice(s, t, r);
    r
  }

  /**
   * A suffix `t` of `s` behind a blank prefix, cut down to a prefix `r` before a blank
   * suffix, is a slice of `s` with blank chars around it; it is empty only if `s` is blank.
   */
  lemma TrimIsSlice(s: string, t: string, r: string)
    requires |t| <= |s| && t == s[|s| - |t|..] && IsBlank(s[..|s| - |t|])
    requires t == [] || !IsTrimmable(t[0])
    requires |r| <= |t| && r == t[..|r|] && IsBlank(t[|r|..])
    ensures var a := |s| - |t|;
      && r == s[a..a + |r|] && IsBlank(s[..a]) && IsBlank(s[a + |r|..])
      && (r == [] <==> IsBlank(s))
  {
    var a := |s| - |t|;
    assert s[a + |r|..] == t[|r|..];
    if r == [] {
      assert s == s[..a] + t;
    } else {
      assert s[a] == t[0];
    }
  }

  /** Trimming an already trimmed string changes nothing. */
  lemma TrimIdempotent(s: string)
    ensures Trim(Trim(s)) == Trim(s)
  {
    var r := Trim(s);
    assert TrimStart(r) == r;
    assert TrimEnd(r) == r;
  }

  // ---------------------------------------------------------------------------
  // String.contains

  /** String.contains: `t` occurs in `s` as a contiguous run of chars. */
  predicate Contains(s: string, t: string) {
    t <= s || (s != [] && Contains(s[1..], t))
  }

  /** Contains agrees with the positional definition of a substring. */
  lemma {:induction false} ContainsAt(s: string, t: string)
    ensures Contains(s, t) <==> exists i :: 0 <= i <= |s| && t <= s[i..]
  {
    if s == [] {
      if Contains(s, t) {
        assert t <= s[0..];
      }
    } else {
      ContainsAt(s[1..], t);
      if Contains(s, t) {
        if !(t <= s) {
          var i :| 0 <= i <= |s[1..]| && t <= s[1..][i..];
          assert s[1..][i..] == s[i + 1..];
        } else {
          assert t <= s[0..];
        }
      }
      if exists i :: 0 <= i <= |s| && t <= s[i..] {
        var i :| 0 <= i <= |s| && t <= s[i..];
        if i > 0 {
          assert s[1..][i - 1..] == s[i..];
        } else {
          assert s[0..] == s;
        }
      }
    }
  }

  /** Every string contains itself, so a name always matches its own key. */
  lemma ContainsSelf(s: string)
    ensures Contains(s, s)
  {
  }

  // ---------------------------------------------------------------------------
  // List.indexOf and List.remove(Object), both by equals

  /** List.indexOf: the position of the first element equal to `x`, or -1. */
  function IndexOf<T(==)>(s: seq<T>, x: T): (i: int)
    ensures -1 <= i < |s|
    ensures i == -1 <==> x !in s
    ensures 0 <= i ==> s[i] == x && x !in s[..i]
  {
    if s == [] then -1
    else if s[0] == x then 0
    else
      var j := IndexOf(s[1..], x);
      if j == -1 then -1
      else
        assert s[..j + 1] == [s[0]] + s[1..][..j];
        j + 1
  }

  /** List.remove(Object): drops the first element equal to `x`, if there is one. */
  function RemoveFirst<T(==)>(s: seq<T>, x: T): (r: seq<T>)
    ensures x !in s ==> r == s
    ensures x in s ==> |r| == |s| - 1
  {
    var i := IndexOf(s, x);
    if i == -1 then s else s[..i] + s[i + 1..]
  }

  /** List.remove(Object) takes away exactly one copy of `x` when there is one, and nothing else. */
  lemma RemoveFirstCounts<T>(s: seq<T>, x: T)
    ensures multiset(RemoveFirst(s, x)) == multiset(s) - multiset{x}
  {
    var i := IndexOf(s, x);
    if i != -1 {
      assert s == s[..i] + [x] + s[i + 1..];
      assert multiset(s) == multiset(s[..i]) + multiset{x} + multiset(s[i + 1..]);
    } else {
      assert multiset(s)[x] == 0;
    }
  }

  /** Removing the same element again is a no-op when it occurred at most once. */
  lemma RemoveFirstAgain<T>(s: seq<T>, x: T)
    requires multiset(s)[x] <= 1
    ensures RemoveFirst(RemoveFirst(s, x), x) == RemoveFirst(s, x)
  {
    var r := RemoveFirst(s, x);
    RemoveFirstCounts(s, x);
    assert multiset(r)[x] == 0;
    assert x !in r;
  }

  /** With two equal elements, the second removal takes the other copy. */
  lemma RemoveFirstAgainWithDuplicate<T>(x: T)
    ensures RemoveFirst(RemoveFirst([x, x], x), x) == []
    ensures RemoveFirst([x, x], x) == [x]
  {
  }

  // ---------------------------------------------------------------------------
  // HashMap iteration order

  /** `order` visits every key of `keys` exactly once, as iterating a HashMap does. */
  ghost predicate Enumerates<K>(order: seq<K>, keys: set<K>) {
    && (forall i, j :: 0 <= i < j < |order| ==> order[i] != order[j])
    && (forall k :: k in order ==> k in keys)
    && (forall k :: k in keys ==> k in order)
  }

  /**
   * The order in which a HashMap with these keys iterates. Java leaves it unspecified;
   * the only promise is that each key comes exactly once.
   */
  method IterationOrder<K>(keys: set<K>) returns (order: seq<K>)
    ensures Enumerates(order, keys)
  {
    order := [];
    var rest := keys;
    while rest != {}
      invariant rest <= keys
      invariant forall k :: k in order ==> k in keys && k !in rest
      invariant forall k :: k in keys ==> k in order || k in rest
      invariant forall i, j :: 0 <= i < j < |order| ==> order[i] != order[j]
      decreases |rest|
    {
      var k :| k in rest;
      order := order + [k];
      rest := rest - {k};
    }
  }
}
