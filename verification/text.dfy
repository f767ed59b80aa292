/** Small vocabulary over strings (`seq<char>`) shared by every other module:
    an option type, substring tests and character searches, stated the way
    the `std::string` members `find`, `find_first_of` and `find_last_of`
    behave. */
module Text {

  datatype Option<+T> = None | Some(value: T)

  /** `w` occurs in `s` starting at index `p`. */
  predicate HasAt(s: string, p: nat, w: string) {
    p + |w| <= |s| && s[p..p + |w|] == w
  }

  /** `s` begins with `prefix` (the source's `s.find(prefix) == 0`). */
  predicate StartsWith(s: string, prefix: string) {
    HasAt(s, 0, prefix)
  }

  /** `w` occurs somewhere in `s` (the source's `s.find(w) != npos`). */
  predicate Occurs(w: string, s: string) {
    exists p: nat | p <= |s| :: HasAt(s, p, w)
  }

  /** Number of occurrences of the character `c` in `s`. */
  function CountChar(s: string, c: char): nat {
    if s == [] then 0 else (if s[0] == c then 1 else 0) + CountChar(s[1..], c)
  }

  lemma {:induction false} CountCharAppend(a: string, b: string, c: char)
    ensures CountChar(a + b, c) == CountChar(a, c) + CountChar(b, c)
    decreases |a|
  {
    if a == [] {
      assert a + b == b;
    } else {
      assert (a + b)[1..] == a[1..] + b;
      CountCharAppend(a[1..], b, c);
    }
  }

  lemma {:induction false} CountCharAbsent(s: string, c: char)
    ensures CountChar(s, c) == 0 <==> c !in s
    decreases |s|
  {
    if s != [] {
      CountCharAbsent(s[1..], c);
      assert c in s <==> s[0] == c || c in s[1..];
    }
  }

  /** Index of the first `c` at or after `from`, if any: `s.find(c, from)`. */
  function FindFrom(s: string, c: char, from: nat): (r: Option<nat>)
    ensures r.Some? ==> from <= r.value < |s| && s[r.value] == c
    ensures r.Some? ==> forall j :: from <= j < r.value ==> s[j] != c
    ensures r.None? ==> forall j :: from <= j < |s| ==> s[j] != c
    decreases |s| - from
  {
    if from >= |s| then None
    else if s[from] == c then Some(from)
    else FindFrom(s, c, from + 1)
  }

  /** Starting the search for `c` anywhere in a stretch free of `c` finds
      the same occurrence. */
  lemma {:induction false} FindFromSkip(s: string, c: char, a: nat, b: nat)
    requires a <= b <= |s|
    requires forall j :: a <= j < b ==> s[j] != c
    ensures FindFrom(s, c, a) == FindFrom(s, c, b)
    decreases b - a
  {
    if a < b {
      FindFromSkip(s, c, a + 1, b);
    }
  }

  /** Index of the first occurrence of `w` at or after `from`, if any:
      `s.find(w, from)`. */
  function Find(s: string, w: string, from: nat): (r: Option<nat>)
    ensures r.Some? ==> from <= r.value && HasAt(s, r.value, w)
    ensures r.Some? ==> forall q :: from <= q < r.value ==> !HasAt(s, q, w)
    ensures r.None? ==> forall q :: from <= q ==> !HasAt(s, q, w)
    decreases |s| + 1 - from
  {
    if from + |w| > |s| then None
    else if HasAt(s, from, w) then Some(from)
    else Find(s, w, from + 1)
  }

  /** Index of the last `c` strictly before `to`, if any: `s.substr(0, to).find_last_of(c)`. */
  function FindLastBefore(s: string, c: char, to: nat): (r: Option<nat>)
    requires to <= |s|
    ensures r.Some? ==> r.value < to && s[r.value] == c
    ensures r.Some? ==> forall j :: r.value < j < to ==> s[j] != c
    ensures r.None? ==> forall j :: 0 <= j < to ==> s[j] != c
  {
    if to == 0 then None
    else if s[to - 1] == c then Some(to - 1)
    else FindLastBefore(s, c, to - 1)
  }
}
