/** The two pure pieces of the screen that work on date strings: the date key
    built from the picker with `String.format("%02d/%02d/%d", day, month + 1,
    year)`, and the title chosen from the selected key against today's and
    tomorrow's keys. Keys are compared only as strings. */
module DateKeys {

  datatype Option<T> = None | Some(value: T)

  // ---------------------------------------------------------------------
  // Decimal text, as `%d` and `%02d` print it
  // ---------------------------------------------------------------------

  function DigitChar(d: int): (c: char)
    requires 0 <= d <= 9
    ensures '0' <= c <= '9'
  {
    (('0' as int) + d) as char
  }

  predicate IsDigit(c: char)
  {
    '0' <= c <= '9'
  }

  function DigitValue(c: char): (r: int)
  {
    (c as int) - ('0' as int)
  }

  /** `%d` of a non-negative number: its digits, most significant first,
      without leading zeros. */
  function NatToString(n: nat): (r: string)
  {
    if n < 10 then [DigitChar(n)]
    else NatToString(n / 10) + [DigitChar(n % 10)]
  }

  /** `%d` of any `int`: a minus sign before the digits of a negative number. */
  function IntToString(n: int): (r: string)
  {
    if n < 0 then "-" + NatToString(-n) else NatToString(n)
  }

  /** `%02d`: zero-padded on the left to width two. A negative number such as
      -5 already has width two and is printed as it is. */
  function Pad2(n: int): (r: string)
  {
    if 0 <= n < 10 then "0" + NatToString(n) else IntToString(n)
  }

  /** The picker callback's key: day, then the 0-based month plus one, then
      the year. */
  function FormatDate(day: int, month: int, year: int): (key: string)
  {
    Pad2(day) + "/" + Pad2(month + 1) + "/" + IntToString(year)
  }

  // ---------------------------------------------------------------------
  // Reading a key back (the inverse used to state what the key determines)
  // ---------------------------------------------------------------------

  predicate AllDigits(s: string)
  {
    forall i :: 0 <= i < |s| ==> IsDigit(s[i])
  }

  /** The number written by a string of digits. */
  function DigitsValue(s: string): (r: nat)
    requires AllDigits(s)
  {
    if s == [] then 0
    else DigitsValue(s[..|s| - 1]) * 10 + DigitValue(s[|s| - 1])
  }

  function ParseNat(s: string): (r: Option<nat>)
  {
    if |s| > 0 && AllDigits(s) then Some(DigitsValue(s)) else None
  }

  /** Split a `DD/MM/YYYY` key into day, 0-based month and year. */
  function ParseDate(key: string): (r: Option<(int, int, int)>)
  {
    if |key| < 7 || key[2] != '/' || key[5] != '/' then None
    else
      match (ParseNat(key[..2]), ParseNat(key[3..5]), ParseNat(key[6..]))
      case (Some(d), Some(m), Some(y)) => Some((d, m - 1, y))
      case _ => None
  }

  /** `%d` prints a non-empty string of digits that reads back as `n`, with
      no leading zero except for 0 itself. */
  lemma {:induction false} NatToStringDigits(n: nat)
    ensures |NatToString(n)| >= 1 && AllDigits(NatToString(n))
    ensures DigitsValue(NatToString(n)) == n
    ensures NatToString(n)[0] == '0' ==> n == 0
  {
    if n >= 10 {
      NatToStringDigits(n / 10);
      var s := NatToString(n);
      assert s[..|s| - 1] == NatToString(n / 10);
      assert s[0] == NatToString(n / 10)[0];
    }
  }

  /** For the numbers 0..99 `%02d` prints exactly two digits. */
  lemma Pad2TwoDigits(n: int)
    requires 0 <= n <= 99
    ensures |Pad2(n)| == 2 && AllDigits(Pad2(n)) && DigitsValue(Pad2(n)) == n
  {
    NatToStringDigits(n);
    if n < 10 {
      var s := Pad2(n);
      assert s[..1] == "0";
      assert DigitsValue("0") == 0 by { assert "0"[..0] == ""; }
    } else {
      NatToStringDigits(n / 10);
      assert n / 10 < 10;
    }
  }

  /** The key of a picked date reads back as that date, for every day and
      month of at most two digits and every non-negative year. */
  lemma FormatDateRoundTrip(day: int, month: int, year: int)
    requires 0 <= day <= 99 && 0 <= month + 1 <= 99 && year >= 0
    ensures ParseDate(FormatDate(day, month, year)) == Some((day, month, year))
  {
    var key := FormatDate(day, month, year);
    Pad2TwoDigits(day);
    Pad2TwoDigits(month + 1);
    NatToStringDigits(year);
    assert key[..2] == Pad2(day);
    assert key[3..5] == Pad2(month + 1);
    assert key[6..] == IntToString(year);
  }

  /** Distinct picked dates get distinct keys, so comparing keys as strings
      compares the dates. */
  lemma FormatDateInjective(d1: int, m1: int, y1: int, d2: int, m2: int, y2: int)
    requires 0 <= d1 <= 99 && 0 <= m1 + 1 <= 99 && y1 >= 0
    requires 0 <= d2 <= 99 && 0 <= m2 + 1 <= 99 && y2 >= 0
    requires FormatDate(d1, m1, y1) == FormatDate(d2, m2, y2)
    ensures d1 == d2 && m1 == m2 && y1 == y2
  {
    FormatDateRoundTrip(d1, m1, y1);
    FormatDateRoundTrip(d2, m2, y2);
  }

  /** Shape of a picked key: two digits, '/', two digits, '/', then the
      year's digits without a leading zero. */
  lemma FormatDateShape(day: int, month: int, year: int)
    requires 0 <= day <= 99 && 0 <= month + 1 <= 99 && year >= 0
    ensures var key := FormatDate(day, month, year);
      |key| >= 7 && key[2] == '/' && key[5] == '/'
      && IsDigit(key[0]) && IsDigit(key[1]) && IsDigit(key[3]) && IsDigit(key[4])
      && AllDigits(key[6..]) && (key[6] == '0' ==> year == 0)
  {
    Pad2TwoDigits(day);
    Pad2TwoDigits(month + 1);
    NatToStringDigits(year);
    assert FormatDate(day, month, year)[6..] == NatToString(year);
  }

  // ---------------------------------------------------------------------
  // The title label of `filterTasksByDate`
  // ---------------------------------------------------------------------

  function TitleLabel(selectedDate: string, today: string, tomorrow: string): (title: string)
  {
    if selectedDate == today then "Today Tasks"
    else if selectedDate == tomorrow then "Tomorrow Tasks"
    else selectedDate + " Tasks"
  }

  /** Away from today and tomorrow the label names the selected key, and
      different keys get different labels. */
  lemma TitleLabelNamesOtherDates(d1: string, d2: string, today: string, tomorrow: string)
    requires d1 != today && d1 != tomorrow && d2 != today && d2 != tomorrow
    ensures TitleLabel(d1, today, tomorrow)[..|d1|] == d1
    ensures TitleLabel(d1, today, tomorrow) == TitleLabel(d2, today, tomorrow) <==> d1 == d2
  {
    var l1, l2 := TitleLabel(d1, today, tomorrow), TitleLabel(d2, today, tomorrow);
    assert l1[..|d1|] == d1;
    if l1 == l2 {
      assert |d1| == |d2|;
      assert l2[..|d2|] == d2;
    }
  }

  /** For a key made by the picker the label is "Today Tasks" exactly when
      the key is today's, and "Tomorrow Tasks" exactly when it is tomorrow's
      and not today's: no picked key can pass for either word. */
  lemma TitleLabelOfPickedDate(day: int, month: int, year: int, today: string, tomorrow: string)
    requires 0 <= day <= 99 && 0 <= month + 1 <= 99 && year >= 0
    ensures var key := FormatDate(day, month, year);
      var title := TitleLabel(key, today, tomorrow);
      (title == "Today Tasks" <==> key == today)
      && (title == "Tomorrow Tasks" <==> key != today && key == tomorrow)
  {
    var key := FormatDate(day, month, year);
    FormatDateShape(day, month, year);
    if key != today && key != tomorrow {
      var title := key + " Tasks";
      assert |title| >= 13 && title[2] == '/';
      assert "Tomorrow Tasks"[2] == 'm';
    }
  }
}
