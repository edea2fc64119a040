/** The parts of Python's `str` that the scrapers rely on, restricted to ASCII:
    `strip()`, `lower()`, `split(sep)`, `startswith`, the substring test `in`,
    and `str(n)` for a non-negative integer. */
module PyText {

  datatype Option<T> = None | Some(value: T)

  /** `str.isspace()` on ASCII: tab, newline, vertical tab, form feed, carriage
      return, the separators 0x1C-0x1F, and space. */
  predicate IsSpace(c: char) {
    '\t' <= c <= '\r' || '\U{1C}' <= c <= ' '
  }

  /** Removes leading whitespace; what is removed is all whitespace and what is
      left is a suffix of `s` that does not start with whitespace. */
  function StripLeft(s: string): (r: string)
    ensures |r| <= |s| && r == s[|s| - |r|..]
    ensures forall k :: 0 <= k < |s| - |r| ==> IsSpace(s[k])
    ensures r == [] || !IsSpace(r[0])
  {
    if s != [] && IsSpace(s[0]) then StripLeft(s[1..]) else s
  }

  /** Removes trailing whitespace; what is left is a prefix of `s` that does
      not end with whitespace. */
  function StripRight(s: string): (r: string)
    ensures |r| <= |s| && r == s[..|r|]
    ensures forall k :: |r| <= k < |s| ==> IsSpace(s[k])
    ensures r == [] || !IsSpace(r[|r| - 1])
  {
    if s != [] && IsSpace(s[|s| - 1]) then StripRight(s[..|s| - 1]) else s
  }

  /** `s.strip()`: a contiguous slice of `s` with whitespace only around it,
      empty exactly when `s` is all whitespace. */
  function Strip(s: string): (r: string)
    ensures |r| <= |s|
    ensures r == [] || (!IsSpace(r[0]) && !IsSpace(r[|r| - 1]))
    ensures r == [] <==> forall k :: 0 <= k < |s| ==> IsSpace(s[k])
  {
    var left := StripLeft(s);
    var r := StripRight(left);
    r
  }

  /** `s.strip()` is the slice of `s` starting at offset `i`, and everything
      cut off on either side of it is whitespace. */
  lemma StripIsSlice(s: string) returns (i: nat)
    ensures i + |Strip(s)| <= |s| && Strip(s) == s[i..i + |Strip(s)|]
    ensures forall k :: 0 <= k < i ==> IsSpace(s[k])
    ensures forall k :: i + |Strip(s)| <= k < |s| ==> IsSpace(s[k])
  {
    var left := StripLeft(s);
    i := |s| - |left|;
    PrefixOfSuffix(s, i, StripRight(left));
  }

  /** A prefix `r` of the suffix of `s` from `i`, followed there only by
      whitespace, is the slice of `s` from `i` with whitespace after it. */
  lemma PrefixOfSuffix(s: string, i: nat, r: string)
    requires i <= |s| && |r| <= |s| - i && r == s[i..][..|r|]
    requires forall k :: |r| <= k < |s| - i ==> IsSpace(s[i..][k])
    ensures r == s[i..i + |r|]
    ensures forall k :: i + |r| <= k < |s| ==> IsSpace(s[k])
  {
    forall k | i + |r| <= k < |s| ensures IsSpace(s[k]) {
      assert s[k] == s[i..][k - i];
    }
  }

  /** Stripping only removes characters: every character of `s.strip()` is a
      character of `s`. */
  lemma StripKeepsChars(s: string, c: char)
    requires c in Strip(s)
    ensures c in s
  {
    var i := StripIsSlice(s);
    var r := Strip(s);
    var k :| 0 <= k < |r| && r[k] == c;
    assert s[i + k] == c;
  }

  /** A string that has no whitespace at either end is its own strip. */
  lemma StripUnchanged(s: string)
    requires s == [] || (!IsSpace(s[0]) && !IsSpace(s[|s| - 1]))
    ensures Strip(s) == s
  {
  }

  /** `str.lower()` on one ASCII character. */
  function LowerChar(c: char): char {
    if 'A' <= c <= 'Z' then (c as int + 32) as char else c
  }

  /** `s.lower()`: same length, every upper-case ASCII letter mapped to its
      lower-case letter and every other character kept. */
  function Lower(s: string): (r: string)
    ensures |r| == |s|
    ensures forall k :: 0 <= k < |s| ==> r[k] == LowerChar(s[k])
  {
    seq(|s|, k requires 0 <= k < |s| => LowerChar(s[k]))
  }

  /** Lower-casing twice is lower-casing once. */
  lemma LowerIdempotent(s: string)
    ensures Lower(Lower(s)) == Lower(s)
  {
    assert forall k :: 0 <= k < |s| ==> Lower(Lower(s))[k] == Lower(s)[k];
  }

  /** `s.startswith(p)`. */
  predicate StartsWith(s: string, p: string) {
    |p| <= |s| && s[..|p|] == p
  }

  /** `sub` occurs in `s` starting at index `i`. */
  predicate OccursAt(s: string, sub: string, i: int) {
    0 <= i && i + |sub| <= |s| && s[i..i + |sub|] == sub
  }

  /** `sub in s`: the substring test. */
  predicate Contains(s: string, sub: string) {
    exists i | 0 <= i <= |s| - |sub| :: OccursAt(s, sub, i)
  }

  /** The inverse of `Split`: the parts put back together with `sep`
      (`sep.join(parts)`). */
  function Join(parts: seq<string>, sep: char): string
    requires parts != []
  {
    if |parts| == 1 then parts[0] else parts[0] + [sep] + Join(parts[1..], sep)
  }

  /** `s.split(sep)` for a one-character separator: at least one part, no part
      contains the separator, and joining the parts back gives `s`. */
  function Split(s: string, sep: char): (parts: seq<string>)
    ensures parts != []
    ensures forall p :: p in parts ==> sep !in p
    ensures Join(parts, sep) == s
  {
    if s == [] then [[]]
    else
      var rest := Split(s[1..], sep);
      if s[0] == sep then
        [[]] + rest
      else
        assert Join([[s[0]] + rest[0]] + rest[1..], sep) == [s[0]] + Join(rest, sep);
        [[s[0]] + rest[0]] + rest[1..]
  }

  /** The other direction of the round trip: splitting a join of parts that do
      not contain the separator gives the parts back. */
  lemma {:induction false} SplitJoin(parts: seq<string>, sep: char)
    requires parts != []
    requires forall p :: p in parts ==> sep !in p
    ensures Split(Join(parts, sep), sep) == parts
  {
    if |parts| == 1 {
      SplitNoSeparator(parts[0], sep);
    } else {
      SplitJoin(parts[1..], sep);
      SplitPrefix(parts[0], Join(parts[1..], sep), sep);
    }
  }

  lemma {:induction false} SplitNoSeparator(s: string, sep: char)
    requires sep !in s
    ensures Split(s, sep) == [s]
  {
    if s != [] {
      SplitNoSeparator(s[1..], sep);
    }
  }

  lemma {:induction false} SplitPrefix(p: string, rest: string, sep: char)
    requires sep !in p
    ensures Split(p + [sep] + rest, sep) == [p] + Split(rest, sep)
  {
    if p == [] {
      assert p + [sep] + rest == [sep] + rest;
      assert ([sep] + rest)[1..] == rest;
    } else {
      assert (p + [sep] + rest)[1..] == p[1..] + [sep] + rest;
      SplitPrefix(p[1..], rest, sep);
      assert [p[0]] + p[1..] == p;
    }
  }

  function DigitChar(d: nat): char
    requires d < 10
  {
    ('0' as int + d) as char
  }

  predicate IsDigit(c: char) {
    '0' <= c <= '9'
  }

  /** The value of a string of decimal digits. */
  function DigitsValue(s: string): nat
    requires forall k :: 0 <= k < |s| ==> IsDigit(s[k])
  {
    if s == [] then 0
    else
      assert IsDigit(s[|s| - 1]);
      DigitsValue(s[..|s| - 1]) * 10 + (s[|s| - 1] as int - '0' as int)
  }

  /** `str(n)` for a non-negative integer: decimal digits, no leading zero, and
      reading the digits back gives `n`. */
  function NatToString(n: nat): (s: string)
    ensures s != []
    ensures forall k :: 0 <= k < |s| ==> IsDigit(s[k])
    ensures s[0] != '0' || s == "0"
    ensures DigitsValue(s) == n
  {
    if n < 10 then [DigitChar(n)]
    else
      var s := NatToString(n / 10) + [DigitChar(n % 10)];
      assert s[..|s| - 1] == NatToString(n / 10);
      s
  }

  /** `c * n` for a one-character string `c`. */
  function Repeat(c: char, n: nat): (r: string)
    ensures |r| == n && forall k :: 0 <= k < n ==> r[k] == c
  {
    if n == 0 then [] else Repeat(c, n - 1) + [c]
  }

  /** A filtered list comprehension, `[f(x) for x in items if f(x) is not
      None]`: the values `f` yields for the items, in item order, skipping the
      items for which it yields `None`. */
  function Kept<A, B>(items: seq<A>, f: A -> Option<B>): (kept: seq<B>)
    ensures |kept| <= |items|
  {
    if items == [] then []
    else
      var front := Kept(items[..|items| - 1], f);
      var last := f(items[|items| - 1]);
      if last.Some? then front + [last.value] else front
  }

  /** The position of the item a kept value came from. */
  lemma {:induction false} KeptOrigin<A, B>(items: seq<A>, f: A -> Option<B>, y: B) returns (i: nat)
    requires y in Kept(items, f)
    ensures i < |items| && f(items[i]) == Some(y)
  {
    var n := |items| - 1;
    if y in Kept(items[..n], f) {
      i := KeptOrigin(items[..n], f, y);
      assert items[..n][i] == items[i];
    } else {
      i := n;
    }
  }

  /** The positions the kept values come from: increasing, so in item order
      and each item at most once; every item for which `f` yields a value is
      among them; and the kept values are exactly those values. */
  lemma {:induction false} KeptPositions<A, B>(items: seq<A>, f: A -> Option<B>) returns (at: seq<nat>)
    ensures |at| == |Kept(items, f)|
    ensures forall j :: 0 <= j < |at| ==> at[j] < |items| && f(items[at[j]]) == Some(Kept(items, f)[j])
    ensures forall j, j' :: 0 <= j < j' < |at| ==> at[j] < at[j']
    ensures forall i :: 0 <= i < |items| && f(items[i]).Some? ==> i in at
  {
    if items == [] {
      return [];
    }
    var n := |items| - 1;
    var front := KeptPositions(items[..n], f);
    var kept := Kept(items, f);
    var frontKept := Kept(items[..n], f);
    forall i | 0 <= i < n && f(items[i]).Some? ensures i in front {
      assert items[..n][i] == items[i];
    }
    if f(items[n]).Some? {
      at := front + [n];
      assert kept == frontKept + [f(items[n]).value];
      forall j | 0 <= j < |at| ensures at[j] < |items| && f(items[at[j]]) == Some(kept[j]) {
        if j < |front| {
          assert at[j] == front[j] && kept[j] == frontKept[j];
          assert items[..n][front[j]] == items[front[j]];
        }
      }
      forall j, j' | 0 <= j < j' < |at| ensures at[j] < at[j'] {
        if j' == |front| {
          assert at[j] == front[j] < n;
        }
      }
    } else {
      at := front;
      assert kept == frontKept;
      forall j | 0 <= j < |at| ensures at[j] < |items| && f(items[at[j]]) == Some(kept[j]) {
        assert items[..n][front[j]] == items[front[j]];
      }
    }
  }

  /** The items are taken one at a time and in order: the values kept from
      two runs of items are those of the first run followed by those of the
      second. */
  lemma {:induction false} KeptAppend<A, B>(a: seq<A>, b: seq<A>, f: A -> Option<B>)
    ensures Kept(a + b, f) == Kept(a, f) + Kept(b, f)
  {
    if b == [] {
      assert a + b == a;
    } else {
      var n := |b| - 1;
      assert (a + b)[..|a + b| - 1] == a + b[..n];
      assert (a + b)[|a + b| - 1] == b[n];
      KeptAppend(a, b[..n], f);
    }
  }
}
