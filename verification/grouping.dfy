/** Thousands separators and the `split(".")` that commaFormat applies to a
    rendered numeral. */
module Grouping {
  import opened Digits

  /** The length of the run of digits at the start of s. */
  function LeadingDigits(s: string): (n: nat)
    ensures n <= |s|
    ensures AllDigits(s[..n])
    ensures n < |s| ==> !IsDigit(s[n])
  {
    if |s| > 0 && IsDigit(s[0]) then
      var n := 1 + LeadingDigits(s[1..]);
      assert s[..n] == [s[0]] + s[1..][..n - 1];
      n
    else 0
  }

  /** Whether the replacement `(\d)(?=(\d\d\d)+(?!\d))` -> "$1," fires at
      a character c followed by the text rest: c is a digit and the run of
      digits right after it has a positive length divisible by three. */
  predicate CommaAfter(c: char, rest: string) {
    IsDigit(c) && LeadingDigits(rest) > 0 && LeadingDigits(rest) % 3 == 0
  }

  /** The global replacement, position by position: each match is one
      digit, so the decision at each character depends only on what follows
      it. */
  function Group(s: string): (t: string)
    ensures |t| >= |s|
  {
    if |s| == 0 then ""
    else [s[0]] + (if CommaAfter(s[0], s[1..]) then "," else "") + Group(s[1..])
  }

  /** The familiar rule, stated independently: the last three digits are
      split off with a comma, then the rest is grouped in the same way. */
  function RefGroup(s: string): (t: string)
    decreases |s|
  {
    if |s| <= 3 then s else RefGroup(s[..|s| - 3]) + "," + s[|s| - 3..]
  }

  /** Deletes every ',' from s. */
  function RemoveCommas(s: string): (t: string)
    ensures ',' !in t
  {
    if |s| == 0 then ""
    else (if s[0] == ',' then "" else [s[0]]) + RemoveCommas(s[1..])
  }

  /** A digit string of 1 to 3 digits, then groups of ',' and 3 digits. */
  predicate WellGrouped(t: string)
    decreases |t|
  {
    if |t| <= 3 then |t| > 0 && AllDigits(t)
    else |t| > 4 && t[|t| - 4] == ',' && AllDigits(t[|t| - 3..]) && WellGrouped(t[..|t| - 4])
  }

  /** JavaScript's `s.split(".")`: the pieces between the dots, in order. */
  function SplitDots(s: string): (parts: seq<string>)
    ensures |parts| >= 1
    ensures forall i :: 0 <= i < |parts| ==> '.' !in parts[i]
    decreases |s|
  {
    if '.' in s then
      var i := IndexOf(s, '.');
      [s[..i]] + SplitDots(s[i + 1..])
    else [s]
  }

  /** `parts.join(".")`. */
  function JoinDots(parts: seq<string>): string
    requires |parts| >= 1
  {
    if |parts| == 1 then parts[0] else parts[0] + "." + JoinDots(parts[1..])
  }

  /* ---------- split and join ---------- */

  lemma {:induction false} SplitNoDot(s: string)
    requires '.' !in s
    ensures SplitDots(s) == [s]
  {
  }

  /** A numeral with one '.' splits into the two sides of it. */
  lemma {:induction false} SplitOneDot(a: string, b: string)
    requires '.' !in a && '.' !in b
    ensures SplitDots(a + "." + b) == [a, b]
  {
    var s := a + "." + b;
    IndexOfAfter(a, '.', b);
    assert s == a + ['.'] + b;
    assert s[..|a|] == a;
    assert s[|a| + 1..] == b;
  }

  /** Joining the pieces of a split gives the text back. */
  lemma {:induction false} JoinSplit(s: string)
    ensures JoinDots(SplitDots(s)) == s
    decreases |s|
  {
    if '.' in s {
      var i := IndexOf(s, '.');
      var a, b := s[..i], s[i + 1..];
      SplitAtDot(s, i);
      JoinSplit(b);
      JoinCons(a, SplitDots(b));
    }
  }

  /** Where the first '.' of s sits at i: the split is the text before it,
      then the split of the text after it, and the two sides with the dot
      between them rebuild s. */
  lemma {:induction false} SplitAtDot(s: string, i: nat)
    requires '.' in s && i == IndexOf(s, '.')
    ensures SplitDots(s) == [s[..i]] + SplitDots(s[i + 1..])
    ensures s == s[..i] + "." + s[i + 1..]
  {
  }

  lemma {:induction false} JoinCons(a: string, rest: seq<string>)
    requires |rest| >= 1
    ensures JoinDots([a] + rest) == a + "." + JoinDots(rest)
  {
    assert ([a] + rest)[1..] == rest;
  }

  /* ---------- removing separators ---------- */

  lemma {:induction false} RemoveCommasAppend(a: string, b: string)
    ensures RemoveCommas(a + b) == RemoveCommas(a) + RemoveCommas(b)
    decreases |a|
  {
    if |a| > 0 {
      assert (a + b)[1..] == a[1..] + b;
      RemoveCommasAppend(a[1..], b);
    } else {
      assert a + b == b;
    }
  }

  lemma {:induction false} RemoveCommasNone(s: string)
    requires ',' !in s
    ensures RemoveCommas(s) == s
    decreases |s|
  {
    if |s| > 0 {
      RemoveCommasNone(s[1..]);
      assert s == [s[0]] + s[1..];
    }
  }

  /** Deleting the separators undoes the grouping, whatever the text. */
  lemma {:induction false} UngroupRoundTrip(s: string)
    requires ',' !in s
    ensures RemoveCommas(Group(s)) == s
    decreases |s|
  {
    if |s| > 0 {
      var c, rest := s[0], s[1..];
      var sep := if CommaAfter(c, rest) then "," else "";
      UngroupRoundTrip(rest);
      UngroupStep(c, sep, Group(rest), rest);
      assert s == [c] + rest;
    }
  }

  /** One step of the round trip: a non-comma character, an optional comma,
      then a text whose commas removed give rest. */
  lemma {:induction false} UngroupStep(c: char, sep: string, g: string, rest: string)
    requires c != ',' && (sep == "" || sep == ",") && RemoveCommas(g) == rest
    ensures RemoveCommas([c] + sep + g) == [c] + rest
  {
    RemoveCommasOne(c);
    RemoveCommasAppend([c] + sep, g);
    RemoveCommasAppend([c], sep);
    RemoveCommasOne(',');
    assert RemoveCommas("") == "";
  }

  lemma {:induction false} RemoveCommasOne(c: char)
    ensures RemoveCommas([c]) == (if c == ',' then "" else [c])
  {
    assert [c][1..] == "";
  }

  /* ---------- the replacement agrees with the reference rule ---------- */

  lemma {:induction false} LeadingOfDigits(s: string)
    requires AllDigits(s)
    ensures LeadingDigits(s) == |s|
    decreases |s|
  {
    if |s| > 0 {
      LeadingOfDigits(s[1..]);
    }
  }

  /** At most three digits: nothing to separate. */
  lemma {:induction false} GroupShort(s: string)
    requires AllDigits(s) && |s| <= 3
    ensures Group(s) == s
    decreases |s|
  {
    if |s| > 0 {
      var c, rest := s[0], s[1..];
      LeadingOfDigits(rest);
      assert !CommaAfter(c, rest);
      GroupShort(rest);
      GroupCons(s);
      assert s == ([c] + "") + rest;
    }
  }

  /** Appending three digits to a digit run adds one separator in front of
      them and changes nothing before it. */
  lemma {:induction false} GroupAppendTriple(a: string, t: string)
    requires AllDigits(a) && |a| > 0 && AllDigits(t) && |t| == 3
    ensures Group(a + t) == Group(a) + "," + t
    decreases |a|
  {
    var rest := a[1..];
    GroupCons(a + t);
    GroupCons(a);
    assert (a + t)[0] == a[0] && (a + t)[1..] == rest + t;
    CommaBeforeTriple(a[0], rest, t);
    if |rest| == 0 {
      assert rest + t == t;
      GroupShort(t);
      assert Group(a + t) == [a[0]] + "," + t;
      assert Group(a) == [a[0]];
    } else {
      var x := [a[0]] + (if CommaAfter(a[0], rest) then "," else "");
      assert Group(a) == x + Group(rest);
      assert Group(a + t) == x + Group(rest + t);
      GroupAppendTriple(rest, t);
      Regroup(x, Group(rest), t);
    }
  }

  lemma {:induction false} GroupCons(s: string)
    requires |s| > 0
    ensures Group(s) == ([s[0]] + (if CommaAfter(s[0], s[1..]) then "," else "")) + Group(s[1..])
  {
  }

  lemma {:induction false} Regroup(x: string, y: string, t: string)
    ensures x + (y + "," + t) == x + y + "," + t
  {
  }

  /** Three more digits after a run change the separator decision only
      where the run was empty. */
  lemma {:induction false} CommaBeforeTriple(c: char, rest: string, t: string)
    requires AllDigits(rest) && AllDigits(t) && |t| == 3
    ensures CommaAfter(c, rest + t) == (IsDigit(c) && (|rest| == 0 || CommaAfter(c, rest)))
  {
    LeadingOfDigits(rest);
    assert AllDigits(rest + t);
    LeadingOfDigits(rest + t);
  }

  /** On a run of digits the regular-expression replacement is the
      reference grouping. */
  lemma {:induction false} GroupIsRefGroup(s: string)
    requires AllDigits(s)
    ensures Group(s) == RefGroup(s)
    decreases |s|
  {
    if |s| <= 3 {
      GroupShort(s);
    } else {
      var a, t := s[..|s| - 3], s[|s| - 3..];
      assert s == a + t;
      GroupIsRefGroup(a);
      GroupAppendTriple(a, t);
    }
  }

  /** The reference grouping of a non-empty digit run is well formed and
      loses no digit; it adds one separator per full group of three. */
  lemma {:induction false} RefGroupWellFormed(s: string)
    requires AllDigits(s) && |s| > 0
    ensures WellGrouped(RefGroup(s))
    ensures RemoveCommas(RefGroup(s)) == s
    ensures |RefGroup(s)| == |s| + (|s| - 1) / 3
    decreases |s|
  {
    if |s| <= 3 {
      DigitsKeep(s);
    } else {
      var a, t := s[..|s| - 3], s[|s| - 3..];
      RefGroupWellFormed(a);
      AppendGroup(RefGroup(a), t);
      assert RefGroup(s) == RefGroup(a) + "," + t;
      assert s == a + t;
    }
  }

  lemma {:induction false} SplitLastGroup(g: string, t: string)
    requires |t| == 3
    ensures var r := g + "," + t; |r| == |g| + 4 && r[..|r| - 4] == g && r[|r| - 4] == ',' && r[|r| - 3..] == t
  {
  }

  /** One more group of three digits keeps a grouping well formed. */
  lemma {:induction false} AppendGroup(g: string, t: string)
    requires WellGrouped(g) && AllDigits(t) && |t| == 3
    ensures WellGrouped(g + "," + t)
    ensures RemoveCommas(g + "," + t) == RemoveCommas(g) + t
  {
    AppendGroupShape(g, t);
    AppendGroupUngroup(g, t);
  }

  lemma {:induction false} AppendGroupShape(g: string, t: string)
    requires WellGrouped(g) && AllDigits(t) && |t| == 3
    ensures WellGrouped(g + "," + t)
  {
    assert |g| > 0;
    SplitLastGroup(g, t);
  }

  lemma {:induction false} AppendGroupUngroup(g: string, t: string)
    requires AllDigits(t)
    ensures RemoveCommas(g + "," + t) == RemoveCommas(g) + t
  {
    RemoveCommasAppend(g + ",", t);
    RemoveTrailingComma(g);
    DigitsKeep(t);
  }

  lemma {:induction false} RemoveTrailingComma(g: string)
    ensures RemoveCommas(g + ",") == RemoveCommas(g)
  {
    RemoveCommasAppend(g, ",");
    RemoveCommasOne(',');
    assert RemoveCommas(g) + "" == RemoveCommas(g);
  }

  lemma {:induction false} DigitsKeep(t: string)
    requires AllDigits(t)
    ensures RemoveCommas(t) == t
  {
    NoCommaInDigits(t);
    RemoveCommasNone(t);
  }

  lemma {:induction false} NoCommaInDigits(s: string)
    requires AllDigits(s)
    ensures ',' !in s && '.' !in s
  {
    forall i | 0 <= i < |s| ensures s[i] != ',' && s[i] != '.' {
      assert IsDigit(s[i]);
    }
  }
}
