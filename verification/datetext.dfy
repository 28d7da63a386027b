/** Date text: `formatDate`, which lays a compact `yyyyMMddHHmmss` stamp out
    as `yyyy-MM-dd HH:mm:ss` by fixed-position slicing, and the compact
    stamps the services build from a clock reading. The clock itself is an
    input: a reading of local calendar fields. */
module DateText {
  import opened JsText

  /** `formatDate(s)`. */
  function FormatDate(s: string): (r: string)
    ensures |r| == (if |s| < 14 then |s| else 14) + 5
  {
    Slice(s, 0, 4) + "-" + Slice(s, 4, 6) + "-" + Slice(s, 6, 8) + " " +
    Slice(s, 8, 10) + ":" + Slice(s, 10, 12) + ":" + Slice(s, 12, 14)
  }

  /** Removes the five separators of a formatted 19-character stamp. */
  function Unformat(t: string): string
    requires |t| == 19
  {
    t[0..4] + t[5..7] + t[8..10] + t[11..13] + t[14..16] + t[17..19]
  }

  predicate HasSeparators(t: string)
  {
    |t| == 19 && t[4] == '-' && t[7] == '-' && t[10] == ' ' && t[13] == ':' && t[16] == ':'
  }

  /** With at least twelve characters every field of `formatDate` is the
      plain subsequence at its position; the seconds field is cut short at
      the end of the text. */
  lemma FormatDateFields(s: string)
    requires |s| >= 12
    ensures FormatDate(s) == s[0..4] + "-" + s[4..6] + "-" + s[6..8] + " " + s[8..10] + ":" + s[10..12] + ":" +
                             s[12..if |s| < 14 then |s| else 14]
  {
    SliceNonNegative(s, 0, 4);
    SliceNonNegative(s, 4, 6);
    SliceNonNegative(s, 6, 8);
    SliceNonNegative(s, 8, 10);
    SliceNonNegative(s, 10, 12);
    SliceNonNegative(s, 12, 14);
  }

  /** `a-b-c d:e:f` for fields of widths 4, 2, 2, 2, 2, 2: the separators
      sit at their positions and each field is read back at its own. */
  lemma Layout(a: string, b: string, c: string, d: string, e: string, f: string)
    requires |a| == 4 && |b| == 2 && |c| == 2 && |d| == 2 && |e| == 2 && |f| == 2
    ensures var r := a + "-" + b + "-" + c + " " + d + ":" + e + ":" + f;
            HasSeparators(r) &&
            r[0..4] == a && r[5..7] == b && r[8..10] == c && r[11..13] == d && r[14..16] == e && r[17..19] == f
  {
  }

  /** A full 14-character stamp is laid out with its separators in place,
      and removing them gives the stamp back. */
  lemma FormatDateRoundTrip(s: string)
    requires |s| == 14
    ensures HasSeparators(FormatDate(s))
    ensures Unformat(FormatDate(s)) == s
  {
    FormatDateFields(s);
    Layout(s[0..4], s[4..6], s[6..8], s[8..10], s[10..12], s[12..14]);
    assert s == s[0..4] + s[4..6] + s[6..8] + s[8..10] + s[10..12] + s[12..14];
  }

  /** Conversely every laid-out stamp is the layout of its digits. */
  lemma UnformatRoundTrip(t: string)
    requires HasSeparators(t)
    ensures |Unformat(t)| == 14 && FormatDate(Unformat(t)) == t
  {
    var a, b, c, d, e, f := t[0..4], t[5..7], t[8..10], t[11..13], t[14..16], t[17..19];
    assert t == a + "-" + b + "-" + c + " " + d + ":" + e + ":" + f;
    Fields(a, b, c, d, e, f);
    FormatDateFields(Unformat(t));
  }

  /** Fields of widths 4, 2, 2, 2, 2, 2 laid end to end, each read back at
      its position. */
  lemma Fields(a: string, b: string, c: string, d: string, e: string, f: string)
    requires |a| == 4 && |b| == 2 && |c| == 2 && |d| == 2 && |e| == 2 && |f| == 2
    ensures var s := a + b + c + d + e + f;
            |s| == 14 && s[0..4] == a && s[4..6] == b && s[6..8] == c && s[8..10] == d && s[10..12] == e && s[12..14] == f
  {
  }

  /** A 12-character stamp (no seconds) gives an empty seconds field, so the
      text ends with the colon. */
  lemma FormatDateNoSeconds(s: string)
    requires |s| == 12
    ensures |FormatDate(s)| == 17 && FormatDate(s)[16] == ':'
    ensures FormatDate(s)[..16] == FormatDate(s + "00")[..16]
  {
    var t := s + "00";
    FormatDateFields(s);
    FormatDateFields(t);
    assert t[0..12] == s;
    var p := s[0..4] + "-" + s[4..6] + "-" + s[6..8] + " " + s[8..10] + ":" + s[10..12];
    assert FormatDate(s) == p + ":";
    assert FormatDate(t) == p + ":" + "00";
  }

  // ---------------------------------------------------------------------
  // clock readings

  /** Local calendar fields as `Date` reports them: `month0` is
      `getMonth()`, counted from 0. */
  datatype Clock = Clock(year: nat, month0: nat, day: nat, hours: nat, minutes: nat, seconds: nat)

  predicate ValidClock(c: Clock)
  {
    c.month0 < 12 && 1 <= c.day <= 31 && c.hours < 24 && c.minutes < 60 && c.seconds < 60
  }

  /** The registration stamp: `${year}` then month+1, day, hours and minutes
      each padded to two digits (no seconds). */
  function RegisterStamp(c: Clock): string
  {
    NatToString(c.year) + Pad2(c.month0 + 1) + Pad2(c.day) + Pad2(c.hours) + Pad2(c.minutes)
  }

  /** For a four-digit year the registration stamp is 12 digits from which
      every field reads back at its fixed position. */
  lemma RegisterStampSpec(c: Clock)
    requires ValidClock(c) && 1000 <= c.year <= 9999
    ensures var t := RegisterStamp(c);
            |t| == 12 && AllDigits(t) &&
            DigitsValue(t[0..4]) == c.year && DigitsValue(t[4..6]) == c.month0 + 1 &&
            DigitsValue(t[6..8]) == c.day && DigitsValue(t[8..10]) == c.hours &&
            DigitsValue(t[10..12]) == c.minutes
  {
    NatToStringLength(c.year);
    NatToStringRoundTrip(c.year);
    FieldsAt(NatToString(c.year), Pad2(c.month0 + 1), Pad2(c.day), Pad2(c.hours), Pad2(c.minutes));
  }

  /** Five digit fields of widths 4, 2, 2, 2, 2 laid end to end: a digit
      string from which each field is read back at its position. */
  lemma FieldsAt(y: string, mo: string, d: string, h: string, mi: string)
    requires AllDigits(y) && AllDigits(mo) && AllDigits(d) && AllDigits(h) && AllDigits(mi)
    requires |y| == 4 && |mo| == 2 && |d| == 2 && |h| == 2 && |mi| == 2
    ensures var t := y + mo + d + h + mi;
            |t| == 12 && AllDigits(t) &&
            t[0..4] == y && t[4..6] == mo && t[6..8] == d && t[8..10] == h && t[10..12] == mi
  {
    AllDigitsAppend(y, mo);
    AllDigitsAppend(y + mo, d);
    AllDigitsAppend(y + mo + d, h);
    AllDigitsAppend(y + mo + d + h, mi);
  }

  /** date-fns `format(now, 'yyyyMMdd_HHmmss')`. */
  function UploadStamp(c: Clock): string
  {
    Pad4(c.year) + Pad2(c.month0 + 1) + Pad2(c.day) + "_" + Pad2(c.hours) + Pad2(c.minutes) + Pad2(c.seconds)
  }

  /** For a year below 10000 the upload stamp has the shape
      `dddddddd_dddddd`. */
  lemma UploadStampShape(c: Clock)
    requires ValidClock(c) && c.year < 10000
    ensures var t := UploadStamp(c);
            |t| == 15 && t[8] == '_' && AllDigits(t[..8]) && AllDigits(t[9..])
  {
    StampShape(Pad4(c.year), Pad2(c.month0 + 1), Pad2(c.day), Pad2(c.hours), Pad2(c.minutes), Pad2(c.seconds));
  }

  /** Six digit fields of widths 4, 2, 2, 2, 2, 2 with '_' after the third. */
  lemma StampShape(y: string, mo: string, d: string, h: string, mi: string, s: string)
    requires AllDigits(y) && AllDigits(mo) && AllDigits(d) && AllDigits(h) && AllDigits(mi) && AllDigits(s)
    requires |y| == 4 && |mo| == 2 && |d| == 2 && |h| == 2 && |mi| == 2 && |s| == 2
    ensures var t := y + mo + d + "_" + h + mi + s;
            |t| == 15 && t[8] == '_' && AllDigits(t[..8]) && AllDigits(t[9..])
  {
    AllDigitsAppend(y, mo);
    AllDigitsAppend(y + mo, d);
    AllDigitsAppend(h, mi);
    AllDigitsAppend(h + mi, s);
    var t := y + mo + d + "_" + h + mi + s;
    assert t[..8] == y + mo + d;
    assert t[9..] == h + mi + s;
  }
}
