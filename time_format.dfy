/**
 * `formatTime(s:)` of the status-bar app: the `"HH:MM:SS"` text the usage
 * query produces becomes `"{m}m"` or `"{h}h {m}m"`.
 */
module TimeFormat {
  import opened Options
  import opened Numerals
  import opened Fields

  const Separator: char := ':'

  /** Text with at least two non-empty `:`-separated pieces; on anything else `t[1]` traps. */
  predicate Formattable(s: string) {
    |Split(s, Separator)| >= 2
  }

  /** Piece `i` read as an `Int`, with 0 for a piece that does not parse (`Int(t[i]) ?? 0`). */
  function PieceValue(s: string, i: nat): (v: int)
    requires i < |Split(s, Separator)|
    ensures InInt64(v)
  {
    ParseInt(Split(s, Separator)[i]).GetOr(0)
  }

  /** The two renderings: minutes alone when there are no hours. */
  function Display(h: int, m: int): (r: string)
    ensures |r| >= 2 && r[|r| - 1] == 'm'
    ensures 'h' in r <==> h != 0
  {
    if h == 0 then IntToString(m) + "m" else IntToString(h) + "h " + IntToString(m) + "m"
  }

  /**
   * Reads a rendering back into its hours and minutes (0 hours for the
   * minutes-only form); `None` for text that is neither form.
   */
  function ReadDisplay(r: string): Option<(int, int)> {
    if r == [] || r[|r| - 1] != 'm' then None else ReadCounts(r[..|r| - 1])
  }

  /** Reads `"{m}"` or `"{h}h {m}"`, the rendering without its final `m`. */
  function ReadCounts(body: string): Option<(int, int)> {
    var k := FieldLength(body, 'h');
    if k == |body| then
      match ParseInt(body)
      case Some(m) => Some((0, m))
      case None => None
    else if k + 1 < |body| && body[k + 1] == ' ' then
      match (ParseInt(body[..k]), ParseInt(body[k + 2..]))
      case (Some(h), Some(m)) => Some((h, m))
      case _ => None
    else None
  }

  /** No rendered integer holds the letter `h`. */
  lemma NoHourMark(v: int)
    ensures FieldLength(IntToString(v), 'h') == |IntToString(v)|
    ensures 'h' !in IntToString(v)
  {
  }

  lemma ReadCountsMinutes(m: int)
    requires InInt64(m)
    ensures ReadCounts(IntToString(m)) == Some((0, m))
  {
    NoHourMark(m);
    ParseIntOfIntToString(m);
  }

  lemma ReadCountsHoursMinutes(h: int, m: int)
    requires InInt64(h) && InInt64(m)
    ensures ReadCounts(IntToString(h) + "h " + IntToString(m)) == Some((h, m))
  {
    var hs, ms := IntToString(h), IntToString(m);
    var body := hs + "h " + ms;
    NoHourMark(h);
    FieldLengthIs(body, 'h', |hs|);
    assert body[..|hs|] == hs;
    assert body[|hs| + 1] == ' ';
    assert body[|hs| + 2..] == ms;
    ParseIntOfIntToString(h);
    ParseIntOfIntToString(m);
  }

  /** Every rendering reads back to the hours and minutes it was made from. */
  lemma DisplayRoundTrip(h: int, m: int)
    requires InInt64(h) && InInt64(m)
    ensures ReadDisplay(Display(h, m)) == Some((h, m))
  {
    var r := Display(h, m);
    if h == 0 {
      assert r[..|r| - 1] == IntToString(m);
      ReadCountsMinutes(m);
    } else {
      assert r[..|r| - 1] == IntToString(h) + "h " + IntToString(m);
      ReadCountsHoursMinutes(h, m);
    }
  }

  /**
   * `formatTime(s:)`: split on `:`, read the first two pieces as integers
   * (0 when a piece does not parse) and render them.
   */
  function FormatTime(s: string): (r: string)
    requires Formattable(s)
    ensures |r| >= 2 && r[|r| - 1] == 'm'
    ensures 'h' in r <==> PieceValue(s, 0) != 0
  {
    Display(PieceValue(s, 0), PieceValue(s, 1))
  }

  /** What `formatTime` shows always reads back as exactly the two values it parsed. */
  lemma FormatTimeReadsBack(s: string)
    requires Formattable(s)
    ensures ReadDisplay(FormatTime(s)) == Some((PieceValue(s, 0), PieceValue(s, 1)))
  {
    DisplayRoundTrip(PieceValue(s, 0), PieceValue(s, 1));
  }

  /** A zero hour gives the minutes alone; any other hour is shown before them. */
  lemma HoursShownIffNonZero(s: string)
    requires Formattable(s)
    ensures var h, m := PieceValue(s, 0), PieceValue(s, 1);
      (h == 0 ==> FormatTime(s) == IntToString(m) + "m") &&
      (h != 0 ==> FormatTime(s) == IntToString(h) + "h " + IntToString(m) + "m")
  {
  }

  /** A piece that is not an integer counts as 0: a bad hour yields the minutes-only form. */
  lemma UnparsablePieceIsZero(s: string)
    requires Formattable(s)
    ensures var t := Split(s, Separator);
      (ParseInt(t[0]).None? ==> FormatTime(s) == IntToString(PieceValue(s, 1)) + "m") &&
      (ParseInt(t[1]).None? ==> FormatTime(s) == Display(PieceValue(s, 0), 0))
  {
  }

  /** Only the first two pieces matter: whatever follows them (the seconds) is dropped. */
  lemma LaterPiecesIgnored(s: string, rest: string)
    requires Formattable(s)
    ensures Formattable(s + ([Separator] + rest))
    ensures FormatTime(s + ([Separator] + rest)) == FormatTime(s)
  {
    SplitAppend(s, rest, Separator);
    var t, u := Split(s, Separator), Split(s + ([Separator] + rest), Separator);
    assert u[0] == t[0] && u[1] == t[1];
  }

  /** A piece of digits without separators is one field. */
  lemma NumeralIsField(k: nat, n: nat)
    ensures IsField(Zeros(k) + NatToString(n), Separator)
  {
  }

  /** Text that starts with two fields has them as its first two pieces. */
  lemma LeadingPieces(a: string, b: string, tail: string)
    requires IsField(a, Separator) && IsField(b, Separator)
    requires tail == [] || tail[0] == Separator
    ensures var t := Split(a + ([Separator] + (b + tail)), Separator);
      |t| >= 2 && t[0] == a && t[1] == b
  {
    SplitCons(a, [Separator] + (b + tail), Separator);
    SplitSkip(b + tail, Separator);
    if tail == [] {
      assert b + tail == b;
      SplitField(b, Separator);
    } else {
      SplitCons(b, tail, Separator);
    }
  }

  /** Leading zeros are removed: `"04:07:..."` shows as `"4h 7m"`, `"00:42:10"` as `"42m"`. */
  lemma LeadingZerosDropped(k1: nat, h: nat, k2: nat, m: nat, tail: string)
    requires InInt64(h) && InInt64(m)
    requires tail == [] || tail[0] == Separator
    ensures var s := (Zeros(k1) + NatToString(h)) + ([Separator] + ((Zeros(k2) + NatToString(m)) + tail));
      Formattable(s) && FormatTime(s) == Display(h, m)
  {
    var a, b := Zeros(k1) + NatToString(h), Zeros(k2) + NatToString(m);
    NumeralIsField(k1, h);
    NumeralIsField(k2, m);
    LeadingPieces(a, b, tail);
    ParseIntNumeral("", k1, h);
    ParseIntNumeral("", k2, m);
    assert "" + a == a && "" + b == b;
  }

  /**
   * The two renderings named in the source's comments. The text is a
   * parameter fixed by each `ensures`: with the literal in place the verifier
   * unfolds `Split` on every candidate character and the proof grows costly.
   */
  lemma LeadingZeroExamples(s: string)
    ensures s == "04:07:00" ==> Formattable(s) && FormatTime(s) == "4h 7m"
    ensures s == "00:42:10" ==> Formattable(s) && FormatTime(s) == "42m"
  {
    SampleDisplays();
    if s == "04:07:00" {
      assert Zeros(1) + NatToString(4) == "04" && Zeros(1) + NatToString(7) == "07";
      assert s == "04" + ([Separator] + ("07" + ":00"));
      LeadingZerosDropped(1, 4, 1, 7, ":00");
    } else if s == "00:42:10" {
      assert Zeros(1) + NatToString(0) == "00" && Zeros(0) + NatToString(42) == "42";
      assert s == "00" + ([Separator] + ("42" + ":10"));
      LeadingZerosDropped(1, 0, 0, 42, ":10");
    }
  }

  // What SQLite's `time(n, 'unixepoch')` produces for a total of `n`
  // seconds under one day. This is an assumption about the database engine,
  // not code of the app; the app only ever formats that text.

  /** Two decimal digits, zero-padded. */
  function Pad2(n: nat): (r: string)
    requires n < 100
    ensures |r| == 2 && AllDigits(r)
  {
    [DigitChar(n / 10), DigitChar(n % 10)]
  }

  /** `"HH:MM:SS"` for `secs` seconds after midnight. */
  function HMS(secs: nat): (r: string)
    requires secs < 86400
    ensures |r| == 8 && r[2] == Separator && r[5] == Separator
    ensures forall i :: 0 <= i < 8 && i != 2 && i != 5 ==> IsDigit(r[i])
  {
    Pad2(secs / 3600) + [Separator] + Pad2(secs % 3600 / 60) + [Separator] + Pad2(secs % 60)
  }

  lemma ParsePad2(n: nat)
    requires n < 100
    ensures ParseInt(Pad2(n)) == Some(n)
  {
    if n < 10 {
      assert Pad2(n) == "" + (Zeros(1) + NatToString(n));
      ParseIntNumeral("", 1, n);
    } else {
      assert NatToString(n) == NatToString(n / 10) + [DigitChar(n % 10)];
      assert Pad2(n) == "" + (Zeros(0) + NatToString(n));
      ParseIntNumeral("", 0, n);
    }
  }

  /** A total under one day shows `secs / 3600` hours and `(secs % 3600) / 60` minutes. */
  lemma FormatOfHMS(secs: nat)
    requires secs < 86400
    ensures Formattable(HMS(secs))
    ensures FormatTime(HMS(secs)) == Display(secs / 3600, secs % 3600 / 60)
  {
    var p := [Pad2(secs / 3600), Pad2(secs % 3600 / 60), Pad2(secs % 60)];
    forall i | 0 <= i < 3 ensures IsField(p[i], Separator) {
      assert AllDigits(p[i]);
      assert forall j :: 0 <= j < |p[i]| ==> p[i][j] != Separator;
    }
    assert Join(p, Separator) == HMS(secs) by {
      assert Join(p[2..], Separator) == p[2];
      assert Join(p[1..], Separator) == p[1] + [Separator] + p[2];
    }
    SplitJoin(p, Separator);
    ParsePad2(secs / 3600);
    ParsePad2(secs % 3600 / 60);
  }

  lemma SampleDisplays()
    ensures Display(0, 0) == "0m" && Display(0, 1) == "1m" && Display(0, 42) == "42m"
    ensures Display(1, 0) == "1h 0m" && Display(1, 2) == "1h 2m" && Display(1, 7) == "1h 7m"
    ensures Display(4, 7) == "4h 7m"
  {
  }

  /**
   * Sample totals: seconds are dropped, and hours appear from 3600 seconds on.
   * As in `LeadingZeroExamples`, the total is a parameter that each `ensures`
   * fixes, so that the arithmetic is done once per case.
   */
  lemma DurationExamples(secs: nat)
    requires secs < 86400
    ensures Formattable(HMS(secs))
    ensures secs == 0 ==> FormatTime(HMS(secs)) == "0m"
    ensures secs == 59 ==> FormatTime(HMS(secs)) == "0m"
    ensures secs == 60 ==> FormatTime(HMS(secs)) == "1m"
    ensures secs == 3600 ==> FormatTime(HMS(secs)) == "1h 0m"
    ensures secs == 3725 ==> FormatTime(HMS(secs)) == "1h 2m"
    ensures secs == 4025 ==> FormatTime(HMS(secs)) == "1h 7m"
  {
    FormatOfHMS(secs);
    SampleDisplays();
    if secs == 0 || secs == 59 {
      assert secs / 3600 == 0 && secs % 3600 / 60 == 0;
    } else if secs == 60 {
      assert secs / 3600 == 0 && secs % 3600 / 60 == 1;
    } else if secs == 3600 {
      assert secs / 3600 == 1 && secs % 3600 / 60 == 0;
    } else if secs == 3725 {
      assert secs / 3600 == 1 && secs % 3600 / 60 == 2;
    } else if secs == 4025 {
      assert secs / 3600 == 1 && secs % 3600 / 60 == 7;
    }
  }
}
