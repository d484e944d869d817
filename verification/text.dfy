/** The Python string operations the parameter bookkeeping relies on:
    `str.split` with and without a split limit, `str.join`, `str.replace`
    of one character by another, and ASCII `str.capitalize`. */
module Text {
  import opened Wrappers

  /** Position of the first `c` in `s`, as `str.find` gives it. */
  function FirstIndex(s: string, c: char): (r: Option<nat>)
    ensures r.None? <==> c !in s
    ensures r.Some? ==> r.value < |s| && s[r.value] == c
    ensures r.Some? ==> forall k :: 0 <= k < r.value ==> s[k] != c
  {
    if |s| == 0 then None
    else if s[0] == c then Some(0)
    else match FirstIndex(s[1..], c)
      case None => None
      case Some(i) => Some(i + 1)
  }

  /** `s.split(c)`. */
  function Split(s: string, c: char): (parts: seq<string>)
    ensures |parts| >= 1
    ensures forall k :: 0 <= k < |parts| ==> c !in parts[k]
    decreases |s|
  {
    match FirstIndex(s, c)
    case None => [s]
    case Some(i) => [s[..i]] + Split(s[i + 1..], c)
  }

  /** A string without the separator splits into itself alone. */
  lemma SplitWithout(s: string, c: char)
    requires c !in s
    ensures Split(s, c) == [s]
  {
  }

  /** A string with the separator splits into at least two parts. */
  lemma SplitHasTwoParts(s: string, c: char)
    requires c in s
    ensures |Split(s, c)| >= 2
  {
  }

  /** `s.split(c, n)[-1]`: what is left after the first `n` separators, or
      the last field when there are fewer. */
  function LastField(s: string, c: char, n: nat): (r: string)
    ensures |r| <= |s|
  {
    if n == 0 then s
    else match FirstIndex(s, c)
      case None => s
      case Some(i) => LastField(s[i + 1..], c, n - 1)
  }

  /** `sep.join(parts)`. */
  function Join(parts: seq<string>, sep: string): (s: string)
    ensures |parts| == 1 ==> s == parts[0]
  {
    if |parts| == 0 then ""
    else if |parts| == 1 then parts[0]
    else parts[0] + sep + Join(parts[1..], sep)
  }

  /** `"".join(parts)`. */
  function Concat(parts: seq<string>): (s: string)
    ensures |parts| == 0 ==> s == ""
  {
    if |parts| == 0 then "" else parts[0] + Concat(parts[1..])
  }

  lemma JoinCons(first: string, rest: seq<string>, sep: string)
    requires |rest| >= 1
    ensures Join([first] + rest, sep) == first + sep + Join(rest, sep)
  {
    assert ([first] + rest)[1..] == rest;
  }

  /** Splitting and joining back with the same separator gives the input. */
  lemma {:induction false} JoinSplit(s: string, c: char)
    ensures Join(Split(s, c), [c]) == s
    decreases |s|
  {
    match FirstIndex(s, c)
    case None =>
    case Some(i) =>
      var tail := s[i + 1..];
      JoinSplit(tail, c);
      JoinCons(s[..i], Split(tail, c), [c]);
      Around(s, i);
  }

  lemma Around(s: string, i: nat)
    requires i < |s|
    ensures s == s[..i] + [s[i]] + s[i + 1..]
  {
  }

  /** The first separator of `a + [c] + b`, when `a` has none, is the one
      between them. */
  lemma FirstIndexAfter(a: string, b: string, c: char)
    requires c !in a
    ensures FirstIndex(a + [c] + b, c) == Some(|a|)
  {
    var s := a + [c] + b;
    assert s[|a|] == c;
    var i := FirstIndex(s, c).value;
    assert forall k :: 0 <= k < |a| ==> s[k] == a[k];
    assert i == |a|;
  }

  /** One split step: a separator-free head followed by the separator. */
  lemma SplitStep(a: string, b: string, c: char)
    requires c !in a
    ensures Split(a + [c] + b, c) == [a] + Split(b, c)
  {
    var s := a + [c] + b;
    FirstIndexAfter(a, b, c);
    assert s[..|a|] == a && s[|a| + 1..] == b;
  }

  /** Skipping one more separator-free field and its separator. */
  lemma LastFieldStep(a: string, b: string, c: char, n: nat)
    requires c !in a
    ensures LastField(a + [c] + b, c, n + 1) == LastField(b, c, n)
  {
    var s := a + [c] + b;
    FirstIndexAfter(a, b, c);
    assert s[|a| + 1..] == b;
  }

  /** Joining separator-free parts and splitting again recovers the parts. */
  lemma {:induction false} SplitJoin(parts: seq<string>, c: char)
    requires |parts| >= 1
    requires forall k :: 0 <= k < |parts| ==> c !in parts[k]
    ensures Split(Join(parts, [c]), c) == parts
  {
    if |parts| > 1 {
      var rest := parts[1..];
      assert forall k :: 0 <= k < |rest| ==> c !in rest[k] by {
        forall k | 0 <= k < |rest| ensures c !in rest[k] {
          assert rest[k] == parts[k + 1];
        }
      }
      SplitJoin(rest, c);
      assert parts == [parts[0]] + rest;
      JoinCons(parts[0], rest, [c]);
      SplitStep(parts[0], Join(rest, [c]), c);
    }
  }

  /** Adding one more separator-free segment adds one more part. */
  lemma SplitSnoc(p: string, leaf: string, c: char)
    requires c !in leaf
    ensures Split(p + [c] + leaf, c) == Split(p, c) + [leaf]
  {
    var parts := Split(p, c);
    JoinSplit(p, c);
    var all := parts + [leaf];
    JoinSnoc(parts, leaf, [c]);
    assert forall k :: 0 <= k < |all| ==> c !in all[k] by {
      forall k | 0 <= k < |all| ensures c !in all[k] {
        if k < |parts| { assert all[k] == parts[k]; }
      }
    }
    SplitJoin(all, c);
  }

  lemma {:induction false} JoinSnoc(parts: seq<string>, last: string, sep: string)
    requires |parts| >= 1
    ensures Join(parts + [last], sep) == Join(parts, sep) + sep + last
  {
    if |parts| == 1 {
      assert (parts + [last])[1..] == [last];
    } else {
      JoinSnoc(parts[1..], last, sep);
      assert (parts + [last])[1..] == parts[1..] + [last];
    }
  }

  /** `s.replace(a, b)` for single characters. */
  function ReplaceChar(s: string, a: char, b: char): (r: string)
    ensures |r| == |s|
    ensures forall i :: 0 <= i < |s| ==> r[i] == if s[i] == a then b else s[i]
  {
    seq(|s|, i requires 0 <= i < |s| => if s[i] == a then b else s[i])
  }

  predicate IsLower(c: char) { 'a' <= c <= 'z' }
  predicate IsUpper(c: char) { 'A' <= c <= 'Z' }

  function ToUpper(c: char): (u: char)
    ensures !IsLower(u)
  {
    if IsLower(c) then (c as int - 'a' as int + 'A' as int) as char else c
  }

  function ToLower(c: char): (l: char)
    ensures !IsUpper(l)
  {
    if IsUpper(c) then (c as int - 'A' as int + 'a' as int) as char else c
  }

  /** `str.capitalize` on ASCII text: first character upper case, the rest
      lower case. */
  function Capitalize(s: string): (r: string)
    ensures |r| == |s|
    ensures |s| > 0 ==> !IsLower(r[0])
    ensures forall i :: 0 < i < |s| ==> !IsUpper(r[i])
  {
    if |s| == 0 then ""
    else [ToUpper(s[0])] + seq(|s| - 1, i requires 0 <= i < |s| - 1 => ToLower(s[i + 1]))
  }

  /** Capitalising changes only letters, so it never introduces a character
      that is not a letter. */
  lemma CapitalizeWithout(s: string, c: char)
    requires c !in s && !IsLower(c) && !IsUpper(c)
    ensures c !in Capitalize(s)
  {
    var r := Capitalize(s);
    forall i | 0 <= i < |r|
      ensures r[i] != c
    {
      if i == 0 {
        assert r[0] == ToUpper(s[0]);
      } else {
        assert r[i] == ToLower(s[i]);
      }
    }
  }

  /** Gluing parts together introduces no character that no part has. */
  lemma {:induction false} ConcatWithout(parts: seq<string>, c: char)
    requires forall k :: 0 <= k < |parts| ==> c !in parts[k]
    ensures c !in Concat(parts)
  {
    if |parts| > 0 {
      ConcatWithout(parts[1..], c);
    }
  }

  predicate StartsWith(s: string, prefix: string)
  {
    |prefix| <= |s| && s[..|prefix|] == prefix
  }
}
