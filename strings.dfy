/** The pieces of Ruby's String and Array API that the media classifier uses:
    split, join, gsub with a one-character pattern, strip, slicing, to_i, to_s
    and capitalize. */
module RubyStrings {
  import opened Wrappers

  predicate IsDigit(c: char) { '0' <= c <= '9' }

  predicate AllDigits(s: string) { forall k :: 0 <= k < |s| ==> IsDigit(s[k]) }

  /** Ruby's whitespace for strip: null, tab, line feed, vertical tab, form feed, carriage return, space. */
  predicate IsSpace(c: char) {
    c == '\0' || c == '\t' || c == '\n' || c == '\U{000B}' || c == '\U{000C}' || c == '\r' || c == ' '
  }

  /** Index of the last occurrence of c in s. */
  function LastIndexOf(s: string, c: char): (r: Option<nat>)
    ensures r.Some? ==> r.value < |s| && s[r.value] == c && c !in s[r.value + 1..]
    ensures r.None? ==> c !in s
  {
    if s == [] then None
    else if s[|s| - 1] == c then Some(|s| - 1)
    else
      var r := LastIndexOf(s[..|s| - 1], c);
      assert r.Some? ==> s[r.value + 1..] == s[..|s| - 1][r.value + 1..] + [s[|s| - 1]];
      assert s == s[..|s| - 1] + [s[|s| - 1]];
      r
  }

  /** Array#join: the parts with sep between neighbours. Every character of
      the result comes from a part or from the separator. */
  function Join(parts: seq<string>, sep: string): (r: string)
    ensures forall c :: c in r ==> c in sep || exists k :: 0 <= k < |parts| && c in parts[k]
    ensures |parts| == 1 ==> r == parts[0]
  {
    if parts == [] then []
    else if |parts| == 1 then parts[0]
    else Join(parts[..|parts| - 1], sep) + sep + parts[|parts| - 1]
  }

  /** Every field of s between occurrences of sep, empty fields included:
      String#split before it drops the trailing empty fields. */
  function Fields(s: string, sep: char): (r: seq<string>)
    ensures |r| >= 1
    ensures Join(r, [sep]) == s
    ensures forall k :: 0 <= k < |r| ==> sep !in r[k]
    decreases |s|
  {
    match LastIndexOf(s, sep)
    case None => [s]
    case Some(k) =>
      var init := Fields(s[..k], sep);
      var r := init + [s[k + 1..]];
      assert r[..|r| - 1] == init;
      assert s == s[..k] + [sep] + s[k + 1..];
      r
  }

  /** Removes the empty fields at the end, as String#split does. */
  function DropTrailingEmpty(fields: seq<string>): (r: seq<string>)
    ensures r <= fields
    ensures r == [] || r[|r| - 1] != []
    ensures forall k :: |r| <= k < |fields| ==> fields[k] == []
  {
    if fields == [] || fields[|fields| - 1] != [] then fields
    else DropTrailingEmpty(fields[..|fields| - 1])
  }

  /** String#split with a one-character separator: the fields of s, less the
      empty ones at the end. The result is empty exactly when s holds nothing
      but separators; otherwise its join is s up to a run of trailing
      separators, and its last field is not empty. */
  function Split(s: string, sep: char): (r: seq<string>)
    ensures r == [] <==> forall k :: 0 <= k < |s| ==> s[k] == sep
    ensures forall k :: 0 <= k < |r| ==> sep !in r[k]
    ensures r == [] || r[|r| - 1] != []
    ensures |Join(r, [sep])| <= |s| && s[..|Join(r, [sep])|] == Join(r, [sep])
    ensures forall k :: |Join(r, [sep])| <= k < |s| ==> s[k] == sep
  {
    DropTrailingFields(s, sep);
    var r := DropTrailingEmpty(Fields(s, sep));
    PrefixFieldsAvoid(r, Fields(s, sep), sep);
    r
  }

  /** The fields kept from a list of sep-free fields are sep-free. */
  lemma PrefixFieldsAvoid(r: seq<string>, fields: seq<string>, sep: char)
    requires r <= fields && forall k :: 0 <= k < |fields| ==> sep !in fields[k]
    ensures forall k :: 0 <= k < |r| ==> sep !in r[k]
  {
    assert forall k :: 0 <= k < |r| ==> r[k] == fields[k];
  }

  /** Dropping the trailing empty fields leaves the join of what is kept
      followed by separators only. */
  lemma {:induction false} DropTrailingFields(s: string, sep: char)
    ensures var r := DropTrailingEmpty(Fields(s, sep));
      && (r == [] <==> forall k :: 0 <= k < |s| ==> s[k] == sep)
      && |Join(r, [sep])| <= |s| && s[..|Join(r, [sep])|] == Join(r, [sep])
      && (forall k :: |Join(r, [sep])| <= k < |s| ==> s[k] == sep)
    decreases |s|
  {
    var fs := Fields(s, sep);
    if s == [] {
      assert fs == [[]];
    } else if s[|s| - 1] == sep {
      var init := s[..|s| - 1];
      assert s == init + [sep];
      TrailingSeparatorFields(init, sep);
      assert fs[..|fs| - 1] == Fields(init, sep);
      DropTrailingFields(init, sep);
      var r := DropTrailingEmpty(Fields(init, sep));
      SeparatorAfterPrefix(init, sep, r == [], Join(r, [sep]));
    } else {
      LastFieldNotEmpty(s, sep);
    }
  }

  /** A separator appended to s keeps s's join-prefix j a prefix, followed by
      separators only, and keeps s's being all separators. */
  lemma SeparatorAfterPrefix(s: string, sep: char, allSep: bool, j: string)
    requires allSep <==> forall k :: 0 <= k < |s| ==> s[k] == sep
    requires |j| <= |s| && s[..|j|] == j && forall k :: |j| <= k < |s| ==> s[k] == sep
    ensures var t := s + [sep];
      && (allSep <==> forall k :: 0 <= k < |t| ==> t[k] == sep)
      && |j| <= |t| && t[..|j|] == j && forall k :: |j| <= k < |t| ==> t[k] == sep
  {
    var t := s + [sep];
    assert t[..|j|] == s[..|j|];
    assert forall k :: 0 <= k < |s| ==> t[k] == s[k];
  }

  /** When s ends in something other than sep, its last field is not empty
      and split keeps every field. */
  lemma LastFieldNotEmpty(s: string, sep: char)
    requires s != [] && s[|s| - 1] != sep
    ensures DropTrailingEmpty(Fields(s, sep)) == Fields(s, sep)
  {
    var fs := Fields(s, sep);
    match LastIndexOf(s, sep)
    case None =>
    case Some(j) =>
      assert fs[|fs| - 1] == s[j + 1..];
      assert s[|s| - 1] in s[j + 1..];
  }

  /** A separator appended to s adds one empty field at the end. */
  lemma TrailingSeparatorFields(s: string, sep: char)
    ensures Fields(s + [sep], sep) == Fields(s, sep) + [[]]
  {
    var t := s + [sep];
    assert LastIndexOf(t, sep) == Some(|s|);
    assert t[..|s|] == s;
  }

  /** split ignores a trailing separator. */
  lemma SplitTrailingSeparator(s: string, sep: char)
    ensures Split(s + [sep], sep) == Split(s, sep)
  {
    TrailingSeparatorFields(s, sep);
    var fs := Fields(s + [sep], sep);
    assert fs[..|fs| - 1] == Fields(s, sep);
  }

  /** Ruby's `s[start, len]`: at most len characters from start. */
  function Slice(s: string, start: nat, len: nat): (r: string)
    requires start <= |s|
    ensures start + len <= |s| ==> r == s[start..start + len]
    ensures start + len > |s| ==> r == s[start..]
  {
    s[start..if start + len <= |s| then start + len else |s|]
  }

  /** Ruby's `s[first..last]`: an inclusive range whose end counts from the
      back when negative, so `s[0..-1]` is the whole string. */
  function RangeInclusive(s: string, first: nat, last: int): (r: string)
    requires first <= |s|
    ensures 0 <= last < |s| && first <= last ==> r == s[first..last + 1]
    ensures last >= |s| ==> r == s[first..]
    ensures last < 0 && first <= |s| + last ==> r == s[first..|s| + last + 1]
    ensures (if last < 0 then |s| + last else last) < first ==> r == []
  {
    var stop := if last < 0 then |s| + last + 1 else last + 1;
    if stop <= first then [] else s[first..if stop <= |s| then stop else |s|]
  }

  /** `s[0..-1]` is the whole string, the empty one included. */
  lemma WholeRange(s: string)
    ensures RangeInclusive(s, 0, -1) == s
  {
  }

  /** String#gsub with a literal one-character pattern and a one-character replacement. */
  function Replace(s: string, from: char, to: char): (r: string)
    ensures |r| == |s|
    ensures forall i :: 0 <= i < |s| ==> r[i] == if s[i] == from then to else s[i]
  {
    if s == [] then []
    else Replace(s[..|s| - 1], from, to) + [if s[|s| - 1] == from then to else s[|s| - 1]]
  }

  /** After gsub, `from` is gone (when it differs from `to`) and every other
      character was already there. */
  lemma ReplacedChars(s: string, from: char, to: char)
    ensures from != to ==> from !in Replace(s, from, to)
    ensures forall c :: c in Replace(s, from, to) ==> c == to || c in s
  {
    var r := Replace(s, from, to);
    forall c | c in r
      ensures c == to || c in s
    {
      var k :| 0 <= k < |r| && r[k] == c;
      assert r[k] == to || r[k] == s[k];
    }
  }

  /** String#lstrip. */
  function LStrip(s: string): (r: string)
    ensures |r| <= |s| && r == s[|s| - |r|..]
    ensures forall k :: 0 <= k < |s| - |r| ==> IsSpace(s[k])
    ensures r == [] || !IsSpace(r[0])
  {
    if s != [] && IsSpace(s[0]) then LStrip(s[1..]) else s
  }

  /** String#rstrip. */
  function RStrip(s: string): (r: string)
    ensures |r| <= |s| && r == s[..|r|]
    ensures forall k :: |r| <= k < |s| ==> IsSpace(s[k])
    ensures r == [] || !IsSpace(r[|r| - 1])
  {
    if s != [] && IsSpace(s[|s| - 1]) then RStrip(s[..|s| - 1]) else s
  }

  /** String#strip: the middle of s between a leading and a trailing run of
      whitespace, with no whitespace left at either end. */
  function Strip(s: string): (r: string)
    ensures r == [] || (!IsSpace(r[0]) && !IsSpace(r[|r| - 1]))
    ensures exists i, j :: StrippedAt(s, i, j) && r == s[i..j]
    ensures forall c :: c in r ==> c in s
  {
    var t := RStrip(s);
    CutBounds(s, t, LStrip(t));
    LStrip(t)
  }

  /** Cutting a leading run of whitespace off a prefix t of s that only
      whitespace follows leaves a middle part r of s at those bounds. */
  lemma CutBounds(s: string, t: string, r: string)
    requires |t| <= |s| && t == s[..|t|] && forall k :: |t| <= k < |s| ==> IsSpace(s[k])
    requires |r| <= |t| && r == t[|t| - |r|..] && forall k :: 0 <= k < |t| - |r| ==> IsSpace(t[k])
    ensures StrippedAt(s, |t| - |r|, |t|) && r == s[|t| - |r|..|t|]
  {
    forall k | 0 <= k < |t| - |r|
      ensures IsSpace(s[k])
    {
      assert t[k] == s[k];
    }
  }

  /** Stripping a string that starts with something other than whitespace
      keeps that first character. */
  lemma StripKeepsFirst(s: string)
    requires s != [] && !IsSpace(s[0])
    ensures Strip(s) != [] && Strip(s)[0] == s[0]
  {
    var t := RStrip(s);
    assert t != [] && t[0] == s[0];
    assert LStrip(t) == t;
  }

  /** s[i..j] is what is left of s once a leading run of whitespace (before
      i) and a trailing run (from j) are taken away. */
  predicate StrippedAt(s: string, i: int, j: int)
  {
    0 <= i <= j <= |s| && (forall k :: 0 <= k < i ==> IsSpace(s[k])) && (forall k :: j <= k < |s| ==> IsSpace(s[k]))
  }

  function DigitValue(c: char): nat
    requires IsDigit(c)
  {
    c as int - '0' as int
  }

  function DigitChar(d: nat): (c: char)
    requires d < 10
    ensures IsDigit(c) && DigitValue(c) == d
  {
    ('0' as int + d) as char
  }

  function Pow10(n: nat): (r: nat)
    ensures r >= 1
  {
    if n == 0 then 1 else 10 * Pow10(n - 1)
  }

  /** String#to_i on a string of decimal digits: below 10 to the number of
      digits, and at least 10 to one less when the first digit is not zero. */
  function DigitsValue(s: string): (r: nat)
    requires AllDigits(s)
    ensures r < Pow10(|s|)
    ensures s != [] && s[0] != '0' ==> Pow10(|s| - 1) <= r
  {
    if s == [] then 0
    else
      var init := s[..|s| - 1];
      var v := DigitsValue(init);
      assert |s| > 1 ==> init[0] == s[0];
      10 * v + DigitValue(s[|s| - 1])
  }

  /** Integer#to_s: decimal digits without leading zeros that read back as n. */
  function Decimal(n: nat): (r: string)
    ensures r != [] && AllDigits(r)
    ensures DigitsValue(r) == n
    ensures r[0] == '0' ==> r == "0"
  {
    if n < 10 then [DigitChar(n)]
    else
      var init := Decimal(n / 10);
      var r := init + [DigitChar(n % 10)];
      assert r[..|r| - 1] == init;
      r
  }

  /** to_s undoes to_i on a digit string without a leading zero. */
  lemma {:induction false} DecimalOfDigits(s: string)
    requires s != [] && AllDigits(s)
    requires s[0] != '0' || s == "0"
    ensures Decimal(DigitsValue(s)) == s
    decreases |s|
  {
    if |s| == 1 {
      assert DigitChar(DigitValue(s[0])) == s[0];
    } else {
      var init := s[..|s| - 1];
      assert init[0] == s[0];
      DecimalOfDigits(init);
      DecimalOfDigitsStep(s);
    }
  }

  /** The step of DecimalOfDigits: one more digit after a string that reads back. */
  lemma DecimalOfDigitsStep(s: string)
    requires |s| >= 2 && AllDigits(s) && s[0] != '0'
    requires Decimal(DigitsValue(s[..|s| - 1])) == s[..|s| - 1]
    ensures Decimal(DigitsValue(s)) == s
  {
    var init, d := s[..|s| - 1], s[|s| - 1];
    assert init[0] == s[0];
    var v := DigitsValue(init);
    assert v >= 1 && DigitsValue(s) == 10 * v + DigitValue(d);
    DecimalStep(v, d);
    InitAndLast(s);
  }

  lemma InitAndLast(s: string)
    requires s != []
    ensures s[..|s| - 1] + [s[|s| - 1]] == s
  {
  }

  /** to_s of a number with the digit d appended writes d after to_s of the number. */
  lemma DecimalStep(v: nat, d: char)
    requires v >= 1 && IsDigit(d)
    ensures Decimal(10 * v + DigitValue(d)) == Decimal(v) + [d]
  {
    var n := 10 * v + DigitValue(d);
    LastDigit(v, DigitValue(d));
    assert DigitChar(DigitValue(d)) == d;
  }

  /** Appending the digit d to v and dropping it again. */
  lemma LastDigit(v: nat, d: nat)
    requires v >= 1 && d < 10
    ensures 10 * v + d >= 10 && (10 * v + d) / 10 == v && (10 * v + d) % 10 == d
  {
  }

  function Upcase(c: char): char
  {
    if 'a' <= c <= 'z' then (c as int - 32) as char else c
  }

  function Downcase(c: char): char
  {
    if 'A' <= c <= 'Z' then (c as int + 32) as char else c
  }

  /** String#capitalize on ASCII: the same letters up to case, the first
      one not in lower case and the rest not in upper case. */
  function Capitalize(s: string): (r: string)
    ensures |r| == |s|
    ensures forall k :: 0 <= k < |s| ==> Downcase(r[k]) == Downcase(s[k])
    ensures r != [] ==> !('a' <= r[0] <= 'z')
    ensures forall k :: 1 <= k < |r| ==> !('A' <= r[k] <= 'Z')
  {
    seq(|s|, k requires 0 <= k < |s| => if k == 0 then Upcase(s[0]) else Downcase(s[k]))
  }

  /** Two digits read back as a number below one hundred. */
  lemma TwoDigitsValue(s: string)
    requires |s| == 2 && AllDigits(s)
    ensures DigitsValue(s) == 10 * DigitValue(s[0]) + DigitValue(s[1])
    ensures DigitsValue(s) <= 99
  {
    assert s[..1][..0] == [];
    assert s[..1] == [s[0]];
    assert DigitsValue(s[..1]) == DigitValue(s[0]);
  }

  /** gsub distributes over concatenation. */
  lemma ReplaceAppend(a: string, b: string, from: char, to: char)
    ensures Replace(a + b, from, to) == Replace(a, from, to) + Replace(b, from, to)
  {
    var l, r := Replace(a + b, from, to), Replace(a, from, to) + Replace(b, from, to);
    forall i | 0 <= i < |a + b| ensures l[i] == r[i] {
      if i >= |a| { assert (a + b)[i] == b[i - |a|]; }
    }
  }

  /** Joining the fields of s with `to` is the same as replacing every separator by `to`. */
  lemma {:induction false} JoinFields(s: string, sep: char, to: char)
    ensures Join(Fields(s, sep), [to]) == Replace(s, sep, to)
    decreases |s|
  {
    match LastIndexOf(s, sep)
    case None =>
      assert Replace(s, sep, to) == s;
    case Some(k) =>
      assert s == s[..k] + [sep] + s[k + 1..];
      JoinFields(s[..k], sep, to);
      JoinFieldsStep(s[..k], s[k + 1..], Fields(s[..k], sep), sep, to);
  }

  /** The step of JoinFields: one more separator and a separator-free last field. */
  lemma {:induction false} JoinFieldsStep(a: string, b: string, init: seq<string>, sep: char, to: char)
    requires |init| >= 1 && sep !in b && Join(init, [to]) == Replace(a, sep, to)
    ensures Join(init + [b], [to]) == Replace(a + [sep] + b, sep, to)
  {
    var fs := init + [b];
    assert fs[..|fs| - 1] == init && fs[|fs| - 1] == b;
    assert Join(fs, [to]) == Join(init, [to]) + [to] + b;
    ReplaceAppend(a + [sep], b, sep, to);
    ReplaceAppend(a, [sep], sep, to);
    assert Replace([sep], sep, to) == [to];
    assert Replace(b, sep, to) == b;
  }

  /** Splitting the join of separator-free parts gives the parts back. */
  lemma {:induction false} FieldsOfJoin(parts: seq<string>, sep: char)
    requires |parts| >= 1
    requires forall k :: 0 <= k < |parts| ==> sep !in parts[k]
    ensures Fields(Join(parts, [sep]), sep) == parts
    decreases |parts|
  {
    if |parts| == 1 {
      assert LastIndexOf(parts[0], sep) == None;
    } else {
      var init, last := parts[..|parts| - 1], parts[|parts| - 1];
      FieldsOfJoin(init, sep);
      var j := Join(init, [sep]);
      var s := j + [sep] + last;
      assert s == Join(parts, [sep]);
      assert s[|j|] == sep && s[|j| + 1..] == last;
      var m := LastIndexOf(s, sep);
      assert m.Some?;
      assert m.value == |j|;
      assert s[..|j|] == j;
    }
  }

  /** When s does not end with the separator, split keeps every field. */
  lemma SplitKeepsFields(s: string, sep: char)
    requires s != [] && s[|s| - 1] != sep
    ensures Split(s, sep) == Fields(s, sep)
  {
    var fs := Fields(s, sep);
    match LastIndexOf(s, sep)
    case None =>
    case Some(k) =>
      assert fs[|fs| - 1] == s[k + 1..];
      assert s[k + 1..] != [];
  }
}
