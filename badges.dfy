/** The badge texts the page shows beside a date: `formatDaysAway` for the
    upcoming list, the slightly different wording of the lookup result, and
    the lookup badge's style class. Each text is shown to determine its day
    count by reading it back with `ParseBadge`. */
module Badges {

  datatype Option<T> = None | Some(value: T)

  predicate IsDigit(c: char) {
    '0' <= c <= '9'
  }

  predicate AllDigits(s: string) {
    forall i :: 0 <= i < |s| ==> IsDigit(s[i])
  }

  function DigitChar(d: int): (c: char)
    requires 0 <= d <= 9
    ensures IsDigit(c) && c as int - '0' as int == d
  {
    (d + '0' as int) as char
  }

  /** The decimal text of n, as a template literal `${n}` prints it. */
  function NatToString(n: nat): (s: string)
    ensures |s| >= 1 && AllDigits(s)
    ensures s[0] == '0' ==> n == 0
  {
    if n < 10 then [DigitChar(n)] else NatToString(n / 10) + [DigitChar(n % 10)]
  }

  /** `String(i)` for an integer: a minus sign before negative values. */
  function IntToString(i: int): (s: string)
    ensures |s| >= 1
  {
    if i < 0 then "-" + NatToString(-i) else NatToString(i)
  }

  /** The value of a string of decimal digits. */
  function ParseNat(s: string): nat
    requires AllDigits(s)
  {
    if s == [] then 0 else 10 * ParseNat(s[..|s| - 1]) + (s[|s| - 1] as int - '0' as int)
  }

  lemma {:induction false} ParseNatToString(n: nat)
    ensures ParseNat(NatToString(n)) == n
  {
    if n >= 10 {
      var s := NatToString(n);
      assert s[..|s| - 1] == NatToString(n / 10);
      ParseNatToString(n / 10);
    }
  }

  /** The length of the longest prefix of s made of digits. */
  function DigitRun(s: string): (k: nat)
    ensures k <= |s| && AllDigits(s[..k])
    ensures k < |s| ==> !IsDigit(s[k])
  {
    if s == [] || !IsDigit(s[0]) then 0
    else
      var k := 1 + DigitRun(s[1..]);
      assert s[..k] == [s[0]] + s[1..][..k - 1];
      k
  }

  lemma {:induction false} DigitRunOfNumber(digits: string, rest: string)
    requires AllDigits(digits)
    requires rest == [] || !IsDigit(rest[0])
    ensures DigitRun(digits + rest) == |digits|
  {
    if digits != [] {
      assert (digits + rest)[1..] == digits[1..] + rest;
      DigitRunOfNumber(digits[1..], rest);
    }
  }

  /** `formatDaysAway(days)`: the badge text of the upcoming list. */
  function FormatDaysAway(days: int): string {
    if days == 0 then "Today"
    else if days == 1 then "1 day"
    else if days == -1 then "1 day ago"
    else if days > 0 then NatToString(days) + " days"
    else NatToString(-days) + " days ago"
  }

  /** The badge text of the lookup result: future counts end in " away". */
  function LookupBadge(daysAway: int): string {
    if daysAway == 0 then "Today"
    else if daysAway == 1 then "1 day away"
    else if daysAway > 0 then NatToString(daysAway) + " days away"
    else if daysAway == -1 then "1 day ago"
    else NatToString(-daysAway) + " days ago"
  }

  /** The style class of the lookup badge: accented for today and later. */
  function BadgeClass(daysAway: int): (c: string)
    ensures c == "badge accent" <==> daysAway >= 0
    ensures c == "badge" <==> daysAway < 0
  {
    "badge" + (if daysAway >= 0 then " accent" else "")
  }

  /** The words after a future count: `one` after a count of one, `many`
      after any other. The past always reads " day ago" / " days ago". */
  datatype Wording = Wording(one: string, many: string)

  const ListWording := Wording(" day", " days")
  const LookupWording := Wording(" day away", " days away")

  /** Reads a badge text back into its day count. */
  function ParseBadge(s: string, w: Wording): Option<int> {
    if s == "Today" then Some(0)
    else
      var k := DigitRun(s);
      if k == 0 then None else ParseCount(ParseNat(s[..k]), s[k..], w)
  }

  /** Reads the words after a count n. */
  function ParseCount(n: nat, rest: string, w: Wording): Option<int> {
    if n == 1 && rest == w.one then Some(1)
    else if n == 1 && rest == " day ago" then Some(-1)
    else if n != 1 && rest == w.many then Some(n)
    else if n != 1 && rest == " days ago" then Some(-(n as int))
    else None
  }

  /** A badge made of a count and words after it reads back through its parts. */
  lemma {:induction false} ReadBack(n: nat, suffix: string, w: Wording)
    requires suffix != [] && suffix[0] == ' '
    ensures ParseBadge(NatToString(n) + suffix, w) == ParseCount(n, suffix, w)
  {
    var s := NatToString(n) + suffix;
    DigitRunOfNumber(NatToString(n), suffix);
    assert IsDigit(s[0]);
    assert s[..|NatToString(n)|] == NatToString(n) && s[|NatToString(n)|..] == suffix;
    ParseNatToString(n);
  }

  /** A count of one reads back from its singular wordings. */
  lemma ReadBackOne(w: Wording)
    requires w.one != [] && w.one[0] == ' ' && w.one != " day ago"
    ensures ParseBadge("1" + w.one, w) == Some(1)
    ensures ParseBadge("1 day ago", w) == Some(-1)
  {
    assert NatToString(1) == "1";
    ReadBack(1, w.one, w);
    assert "1 day ago" == NatToString(1) + " day ago";
    ReadBack(1, " day ago", w);
  }

  /** Any other count reads back from its plural wordings. */
  lemma ReadBackMany(n: nat, w: Wording)
    requires n != 1
    requires w.many != [] && w.many[0] == ' ' && w.many != " days ago"
    ensures ParseBadge(NatToString(n) + w.many, w) == Some(n)
    ensures ParseBadge(NatToString(n) + " days ago", w) == Some(-(n as int))
  {
    ReadBack(n, w.many, w);
    ReadBack(n, " days ago", w);
  }

  /** The list's badge text determines the day count. */
  lemma FormatDaysAwayRoundTrip(days: int)
    ensures ParseBadge(FormatDaysAway(days), ListWording) == Some(days)
  {
    if days > 1 {
      var n: nat := days;
      assert FormatDaysAway(days) == NatToString(n) + ListWording.many;
      ReadBackMany(n, ListWording);
    } else if days < -1 {
      var n: nat := -days;
      assert FormatDaysAway(days) == NatToString(n) + " days ago";
      ReadBackMany(n, ListWording);
    } else if days == 1 || days == -1 {
      ReadBackOne(ListWording);
      assert FormatDaysAway(1) == "1" + ListWording.one;
    }
  }

  /** The lookup badge text determines the day count. */
  lemma LookupBadgeRoundTrip(daysAway: int)
    ensures ParseBadge(LookupBadge(daysAway), LookupWording) == Some(daysAway)
  {
    if daysAway > 1 {
      var n: nat := daysAway;
      assert LookupBadge(daysAway) == NatToString(n) + LookupWording.many;
      ReadBackMany(n, LookupWording);
    } else if daysAway < -1 {
      var n: nat := -daysAway;
      assert LookupBadge(daysAway) == NatToString(n) + " days ago";
      ReadBackMany(n, LookupWording);
    } else if daysAway == 1 || daysAway == -1 {
      ReadBackOne(LookupWording);
      assert LookupBadge(1) == "1" + LookupWording.one;
    }
  }

  /** The two wordings agree except that future counts gain " away". */
  lemma LookupBadgeVersusList(daysAway: int)
    ensures daysAway > 0 ==> LookupBadge(daysAway) == FormatDaysAway(daysAway) + " away"
    ensures daysAway <= 0 ==> LookupBadge(daysAway) == FormatDaysAway(daysAway)
  {
  }

  /** A list badge speaks of the past exactly for negative counts. */
  lemma FormatDaysAwayTense(days: int)
    ensures HasSuffix(FormatDaysAway(days), " ago") <==> days < 0
  {
    var s := FormatDaysAway(days);
    if days > 1 {
      assert s[|s| - 4..] == " days"[1..];
    } else if days < -1 {
      assert s[|s| - 4..] == " days ago"[5..];
    }
  }

  predicate HasSuffix(s: string, suffix: string) {
    |suffix| <= |s| && s[|s| - |suffix|..] == suffix
  }

  /** Sample badges for 0, 1, -1, 5, -5 and 12 days. */
  lemma FormatDaysAwayExamples()
    ensures FormatDaysAway(0) == "Today"
    ensures FormatDaysAway(1) == "1 day"
    ensures FormatDaysAway(-1) == "1 day ago"
    ensures FormatDaysAway(5) == "5 days"
    ensures FormatDaysAway(-5) == "5 days ago"
    ensures FormatDaysAway(12) == "12 days"
  {
    assert NatToString(5) == "5";
    assert NatToString(12) == NatToString(1) + [DigitChar(2)] == "12";
  }
}
