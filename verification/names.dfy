/** String helpers of the rename window: the slash-prefix rule used for recommended names,
    ordinal `String.Contains`, and renaming the first list entry with a given name. */
module Names {

  /** One parameter reference under a rename: exactly `from` becomes `to`, anything else stays. */
  function Rename(n: string, from: string, to: string): string
  {
    if n == from then to else n
  }

  /** `String.LastIndexOf(char)`: the position of the last `c` in `s`, or -1 when there is none. */
  function LastIndexOf(s: string, c: char): (r: int)
    ensures -1 <= r < |s|
    ensures r == -1 <==> c !in s
    ensures 0 <= r ==> s[r] == c && c !in s[r + 1..]
  {
    if |s| == 0 then -1
    else if s[|s| - 1] == c then |s| - 1
    else
      var t := s[..|s| - 1];
      var k := LastIndexOf(t, c);
      assert s == t + [s[|s| - 1]];
      assert c in s <==> c in t;
      assert 0 <= k ==> s[k] == t[k] && s[k + 1..] == t[k + 1..] + [s[|s| - 1]];
      k
  }

  /** The "folder" part of a parameter name (RenameParam.cs:360-370): everything up to and
      including the last '/', or the whole name when it holds no '/'. */
  function GetSubstringBeforeLastSlash(input: string): (r: string)
    ensures '/' !in input ==> r == input
    ensures '/' in input ==> r <= input && 0 < |r| && r[|r| - 1] == '/' && '/' !in input[|r|..]
  {
    var index := LastIndexOf(input, '/');
    if index == -1 then input else input[..index + 1]
  }

  /** The slash prefix is the only prefix of a slashed name that ends in '/' and leaves a
      slash-free rest, so the contract above pins the result down completely. */
  lemma SlashPrefixUnique(input: string, p: string)
    requires p <= input && 0 < |p| && p[|p| - 1] == '/' && '/' !in input[|p|..]
    ensures p == GetSubstringBeforeLastSlash(input)
  {
    assert input[|p| - 1] == '/';
    var r := GetSubstringBeforeLastSlash(input);
    assert |p| == |r|;
  }

  /** Applying the rule to its own result changes nothing. */
  lemma SlashPrefixIdempotent(input: string)
    ensures GetSubstringBeforeLastSlash(GetSubstringBeforeLastSlash(input)) == GetSubstringBeforeLastSlash(input)
  {
    var r := GetSubstringBeforeLastSlash(input);
    if '/' in input {
      assert r[|r| - 1] == '/';
      assert r[|r|..] == [];
      SlashPrefixUnique(r, r);
    }
  }

  /** Ordinal `String.Contains(value)`: `value` starts at some position of `s`. */
  predicate Contains(s: string, value: string)
  {
    value <= s || (|s| > 0 && Contains(s[1..], value))
  }

  /** `value` occupies the positions of `s` from `i` on. */
  predicate SliceAt(s: string, value: string, i: int)
  {
    0 <= i <= |s| - |value| && s[i..i + |value|] == value
  }

  /** `Contains` holds exactly when `value` is a contiguous slice of `s`. */
  lemma {:induction false} ContainsIffSlice(s: string, value: string)
    ensures Contains(s, value) <==> exists i :: SliceAt(s, value, i)
  {
    if value <= s {
      assert SliceAt(s, value, 0);
    } else if |s| > 0 {
      ContainsIffSlice(s[1..], value);
      if Contains(s[1..], value) {
        var i :| SliceAt(s[1..], value, i);
        assert SliceAt(s, value, i + 1);
      }
      if exists i :: SliceAt(s, value, i) {
        var i :| SliceAt(s, value, i);
        assert s[..|value|] == value ==> value <= s;
        assert 0 < i;
        assert s[1..][i - 1..i - 1 + |value|] == s[i..i + |value|];
        assert SliceAt(s[1..], value, i - 1);
      }
    }
  }

  /** The position of the first entry equal to `x`, or -1. */
  function IndexOf(s: seq<string>, x: string): (r: int)
    ensures -1 <= r < |s|
    ensures r == -1 <==> x !in s
    ensures 0 <= r ==> s[r] == x && x !in s[..r]
  {
    if |s| == 0 then -1
    else if s[0] == x then 0
    else
      var k := IndexOf(s[1..], x);
      assert s == [s[0]] + s[1..];
      assert 0 <= k ==> s[..k + 1] == [s[0]] + s[1..][..k];
      if k == -1 then -1 else k + 1
  }

  /** `list.FirstOrDefault(x => x.name == from).name = to` on a list of names: the first entry
      equal to `from` becomes `to`; every other entry is left as it is. */
  function ReplaceFirst(s: seq<string>, from: string, to: string): (r: seq<string>)
    ensures |r| == |s|
    ensures from !in s ==> r == s
    ensures from in s ==> r[IndexOf(s, from)] == to
    ensures forall i :: 0 <= i < |s| && i != IndexOf(s, from) ==> r[i] == s[i]
  {
    var k := IndexOf(s, from);
    if k == -1 then s else s[k := to]
  }

  /** Exactly one `from` is traded for one `to`: nothing is lost, duplicated or reordered
      beyond that single entry. */
  lemma ReplaceFirstMultiset(s: seq<string>, from: string, to: string)
    requires from in s
    ensures multiset(ReplaceFirst(s, from, to)) == multiset(s) - multiset{from} + multiset{to}
  {
    var k := IndexOf(s, from);
    assert s == s[..k] + [from] + s[k + 1..];
    assert ReplaceFirst(s, from, to) == s[..k] + [to] + s[k + 1..];
  }

  /** Renaming to a fresh name and back restores the list. */
  lemma ReplaceFirstRoundTrip(s: seq<string>, from: string, to: string)
    requires to !in s
    ensures ReplaceFirst(ReplaceFirst(s, from, to), to, from) == s
  {
    if from in s && from != to {
      var k := IndexOf(s, from);
      var r := ReplaceFirst(s, from, to);
      assert r[..k] == s[..k];
      assert IndexOf(r, to) == k;
    }
  }

  /** Every name of a flat list of references put through one rename. */
  function RenameEach(s: seq<string>, from: string, to: string): (r: seq<string>)
    ensures |r| == |s|
    ensures forall i :: 0 <= i < |s| ==> r[i] == Rename(s[i], from, to)
  {
    seq(|s|, i requires 0 <= i < |s| => Rename(s[i], from, to))
  }

  /** Renaming a concatenation renames each part. */
  lemma RenameEachConcat(a: seq<string>, b: seq<string>, from: string, to: string)
    ensures RenameEach(a + b, from, to) == RenameEach(a, from, to) + RenameEach(b, from, to)
  {
  }

  /** After a rename to a different name no `from` is left, every former `from` is counted
      under `to`, and every other name keeps its number of occurrences. */
  lemma {:induction false} RenameEachCounts(s: seq<string>, from: string, to: string)
    requires from != to
    ensures multiset(RenameEach(s, from, to))[from] == 0
    ensures multiset(RenameEach(s, from, to))[to] == multiset(s)[to] + multiset(s)[from]
    ensures forall n :: n != from && n != to ==> multiset(RenameEach(s, from, to))[n] == multiset(s)[n]
  {
    if |s| > 0 {
      var t, x := s[..|s| - 1], s[|s| - 1];
      assert s == t + [x];
      RenameEachCounts(t, from, to);
      RenameEachConcat(t, [x], from, to);
      var y := Rename(x, from, to);
      assert RenameEach([x], from, to) == [y];
      assert multiset(RenameEach(s, from, to)) == multiset(RenameEach(t, from, to)) + multiset{y};
      assert multiset(s) == multiset(t) + multiset{x};
    }
  }

  /** A rename leaves a list without `from` as it is. */
  lemma RenameEachAbsent(s: seq<string>, from: string, to: string)
    requires from !in s
    ensures RenameEach(s, from, to) == s
  {
  }

  /** Renaming to a name the list does not hold, then back, restores the list. */
  lemma RenameEachRoundTrip(s: seq<string>, from: string, to: string)
    requires to !in s
    ensures RenameEach(RenameEach(s, from, to), to, from) == s
  {
  }

  /** A position holding `x` with no `x` before it is the first index of `x`. */
  lemma IndexOfFirst(s: seq<string>, x: string, k: int)
    requires 0 <= k < |s| && s[k] == x && x !in s[..k]
    ensures IndexOf(s, x) == k
  {
  }
}
