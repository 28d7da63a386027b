/** The ECMAScript string and array primitives that the ordering system's
    logic leans on, with the edge cases of the language standard:
    `slice` with relative (negative) indices, `split` with a one-character
    separator, `padStart`, decimal `String(n)`, and `trim`. */
module JsText {

  /** ECMA-262 `slice` index resolution: a negative index counts from the
      end, and every index is clamped to `0..len`. */
  function ResolveIndex(rel: int, len: nat): (k: nat)
    ensures k <= len
    ensures rel >= 0 ==> k == if rel <= len then rel else len
    ensures rel < 0 ==> k == if len + rel >= 0 then len + rel else 0
  {
    if rel < 0 then (if len + rel >= 0 then len + rel else 0)
    else if rel <= len then rel else len
  }

  /** `String.prototype.slice` / `Array.prototype.slice` (both resolve their
      arguments the same way; an empty result when `end` falls before
      `start`). */
  function Slice<T>(s: seq<T>, start: int, end: int): (r: seq<T>)
    ensures var a, b := ResolveIndex(start, |s|), ResolveIndex(end, |s|);
            |r| == (if a <= b then b - a else 0)
    ensures forall i :: 0 <= i < |r| ==> r[i] == s[ResolveIndex(start, |s|) + i]
  {
    var a := ResolveIndex(start, |s|);
    var b := ResolveIndex(end, |s|);
    if a <= b then s[a..b] else []
  }

  /** With non-negative bounds, `slice` is the ordinary subsequence clipped to
      the end of the input. */
  lemma SliceNonNegative<T>(s: seq<T>, start: nat, end: nat)
    requires start <= end
    ensures start <= |s| ==> Slice(s, start, end) == s[start..if end <= |s| then end else |s|]
    ensures start >= |s| ==> Slice(s, start, end) == []
  {
  }

  // ---------------------------------------------------------------------
  // split / join with a single-character separator

  /** `s.split(sep)` for a one-character `sep`: the maximal separator-free
      pieces, including empty ones at the ends and between adjacent
      separators. */
  function Split(s: string, sep: char): (r: seq<string>)
    ensures |r| >= 1
  {
    if |s| == 0 then [""]
    else
      var rest := Split(s[..|s| - 1], sep);
      if s[|s| - 1] == sep then rest + [""]
      else rest[..|rest| - 1] + [rest[|rest| - 1] + [s[|s| - 1]]]
  }

  /** No piece of a split contains the separator. */
  lemma {:induction false} SplitPiecesNoSep(s: string, sep: char)
    ensures forall i :: 0 <= i < |Split(s, sep)| ==> NoSep(Split(s, sep)[i], sep)
  {
    if |s| > 0 {
      SplitPiecesNoSep(s[..|s| - 1], sep);
    }
  }

  /** `parts.join(sep)`. */
  function Join(parts: seq<string>, sep: char): string
  {
    if |parts| == 0 then ""
    else if |parts| == 1 then parts[0]
    else Join(parts[..|parts| - 1], sep) + [sep] + parts[|parts| - 1]
  }

  lemma JoinSnoc(parts: seq<string>, p: string, sep: char)
    requires |parts| >= 1
    ensures Join(parts + [p], sep) == Join(parts, sep) + [sep] + p
  {
    assert (parts + [p])[..|parts + [p]| - 1] == parts;
  }

  lemma JoinLastExtend(parts: seq<string>, c: char, sep: char)
    requires |parts| >= 1
    ensures Join(parts[..|parts| - 1] + [parts[|parts| - 1] + [c]], sep) == Join(parts, sep) + [c]
  {
    var init := parts[..|parts| - 1];
    var last := parts[|parts| - 1];
    if |parts| == 1 {
      assert init + [last + [c]] == [last + [c]];
    } else {
      JoinSnoc(init, last + [c], sep);
      assert parts == init + [last];
      JoinSnoc(init, last, sep);
    }
  }

  /** Joining the pieces of a split with the same separator gives the input
      back. */
  lemma {:induction false} JoinSplit(s: string, sep: char)
    ensures Join(Split(s, sep), sep) == s
  {
    if |s| == 0 {
    } else {
      var init := s[..|s| - 1];
      var rest := Split(init, sep);
      JoinSplit(init, sep);
      assert s == init + [s[|s| - 1]];
      if s[|s| - 1] == sep {
        JoinSnoc(rest, "", sep);
      } else {
        JoinLastExtend(rest, s[|s| - 1], sep);
      }
    }
  }

  predicate NoSep(p: string, sep: char)
  {
    forall k :: 0 <= k < |p| ==> p[k] != sep
  }

  lemma {:induction false} SplitNoSep(p: string, sep: char)
    requires NoSep(p, sep)
    ensures Split(p, sep) == [p]
  {
    if |p| > 0 {
      SplitNoSep(p[..|p| - 1], sep);
      assert p == p[..|p| - 1] + [p[|p| - 1]];
    }
  }

  /** Appending separator-free text to a string extends its last piece. */
  lemma {:induction false} SplitAppendNoSep(s: string, t: string, sep: char)
    requires NoSep(t, sep)
    ensures var a, b := Split(s, sep), Split(s + t, sep);
            |b| == |a| && b[..|a| - 1] == a[..|a| - 1] && b[|a| - 1] == a[|a| - 1] + t
    decreases |t|
  {
    if |t| == 0 {
      assert s + t == s;
    } else {
      var t' := t[..|t| - 1];
      var c := t[|t| - 1];
      SplitAppendNoSep(s, t', sep);
      assert s + t == (s + t') + [c];
      SplitSnocChar(s + t', c, sep);
      var a, a1 := Split(s, sep), Split(s + t', sep);
      assert Split(s + t, sep) == a1[..|a| - 1] + [a1[|a| - 1] + [c]];
      assert a1[|a| - 1] + [c] == a[|a| - 1] + t;
    }
  }

  /** Appending a character other than the separator extends the last piece. */
  lemma SplitSnocChar(s: string, c: char, sep: char)
    requires c != sep
    ensures var a := Split(s, sep);
            Split(s + [c], sep) == a[..|a| - 1] + [a[|a| - 1] + [c]]
  {
    assert (s + [c])[..|s + [c]| - 1] == s;
  }

  lemma SplitSnocSep(s: string, sep: char)
    ensures Split(s + [sep], sep) == Split(s, sep) + [""]
  {
    assert (s + [sep])[..|s + [sep]| - 1] == s;
  }

  /** No part contains the separator. */
  predicate NoSepParts(parts: seq<string>, sep: char)
  {
    forall i :: 0 <= i < |parts| ==> NoSep(parts[i], sep)
  }

  /** Splitting on a separator that occurs in none of the parts undoes a
      join. */
  lemma {:induction false} SplitJoin(parts: seq<string>, sep: char)
    requires |parts| >= 1
    requires NoSepParts(parts, sep)
    ensures Split(Join(parts, sep), sep) == parts
  {
    if |parts| == 1 {
      SplitNoSep(parts[0], sep);
    } else {
      var init := parts[..|parts| - 1];
      var last := parts[|parts| - 1];
      assert NoSepParts(init, sep) by {
        forall i | 0 <= i < |init|
          ensures NoSep(init[i], sep)
        {
          assert init[i] == parts[i];
        }
      }
      SplitJoin(init, sep);
      assert parts == init + [last];
      SplitJoinStep(init, last, sep);
    }
  }

  /** One part more: the step of `SplitJoin`. */
  lemma SplitJoinStep(init: seq<string>, last: string, sep: char)
    requires |init| >= 1 && NoSep(last, sep)
    requires Split(Join(init, sep), sep) == init
    ensures Split(Join(init + [last], sep), sep) == init + [last]
  {
    var w := Join(init, sep) + [sep];
    JoinSnoc(init, last, sep);
    SplitSnocSep(Join(init, sep), sep);
    var a := init + [""];
    assert Split(w, sep) == a;
    assert a[..|init|] == init && a[|init|] + last == last;
    SplitAppendNoSep(w, last, sep);
    var b := Split(w + last, sep);
    assert b == b[..|init|] + [b[|init|]];
  }

  /** `s.split(sep).pop()`: the last piece. */
  function LastPiece(s: string, sep: char): string
  {
    var parts := Split(s, sep);
    parts[|parts| - 1]
  }

  /** The last piece is the text after the last separator, or the whole
      string when there is none. */
  lemma {:induction false} LastPieceSpec(s: string, sep: char)
    ensures NoSep(s, sep) ==> LastPiece(s, sep) == s
    ensures forall k :: 0 <= k < |s| && s[k] == sep && NoSep(s[k + 1..], sep) ==>
              LastPiece(s, sep) == s[k + 1..]
  {
    if NoSep(s, sep) {
      SplitNoSep(s, sep);
    }
    forall k | 0 <= k < |s| && s[k] == sep && NoSep(s[k + 1..], sep)
      ensures LastPiece(s, sep) == s[k + 1..]
    {
      var pre := s[..k + 1];
      assert pre[..|pre| - 1] == s[..k];
      SplitAppendNoSep(pre, s[k + 1..], sep);
      assert pre + s[k + 1..] == s;
    }
  }

  // ---------------------------------------------------------------------
  // decimal digits

  predicate IsDigit(c: char)
  {
    '0' <= c <= '9'
  }

  predicate AllDigits(s: string)
  {
    forall i :: 0 <= i < |s| ==> IsDigit(s[i])
  }

  lemma AllDigitsAppend(a: string, b: string)
    requires AllDigits(a) && AllDigits(b)
    ensures AllDigits(a + b)
  {
    assert forall i :: |a| <= i < |a + b| ==> (a + b)[i] == b[i - |a|];
  }

  function DigitChar(d: nat): (c: char)
    requires d < 10
    ensures IsDigit(c)
  {
    ['0', '1', '2', '3', '4', '5', '6', '7', '8', '9'][d]
  }

  function DigitValue(c: char): (d: nat)
    requires IsDigit(c)
    ensures d < 10
  {
    (c as int - '0' as int) as nat
  }

  /** `String(n)` for a non-negative integer: its shortest decimal form. */
  function NatToString(n: nat): (r: string)
    ensures |r| >= 1 && AllDigits(r)
    ensures n < 10 <==> |r| == 1
    ensures |r| > 1 ==> r[0] != '0'
  {
    if n < 10 then [DigitChar(n)] else NatToString(n / 10) + [DigitChar(n % 10)]
  }

  /** The value a digit string denotes (the inverse of `NatToString`). */
  function DigitsValue(s: string): nat
    requires AllDigits(s)
  {
    if |s| == 0 then 0 else 10 * DigitsValue(s[..|s| - 1]) + DigitValue(s[|s| - 1])
  }

  lemma {:induction false} NatToStringRoundTrip(n: nat)
    ensures DigitsValue(NatToString(n)) == n
  {
    if n >= 10 {
      NatToStringRoundTrip(n / 10);
      var r := NatToString(n);
      assert r[..|r| - 1] == NatToString(n / 10);
      assert DigitValue(DigitChar(n % 10)) == n % 10;
    } else {
      assert DigitValue(DigitChar(n)) == n;
    }
  }

  lemma NatToStringLength(n: nat)
    ensures 10 <= n < 100 ==> |NatToString(n)| == 2
    ensures 1000 <= n < 10000 ==> |NatToString(n)| == 4
  {
    if 10 <= n < 100 {
      assert |NatToString(n / 10)| == 1;
    }
    if 1000 <= n < 10000 {
      NatToStringLength(n / 10);
      assert |NatToString(n / 10 / 10)| == 2 by { NatToStringLength(n / 10 / 10); }
    }
  }

  /** `s.padStart(n, c)` with a one-character pad string. */
  function PadStart(s: string, n: nat, c: char): (r: string)
    ensures |r| == if |s| >= n then |s| else n
    ensures |s| <= n ==> r[n - |s|..] == s
    ensures forall i :: 0 <= i < |r| - |s| ==> r[i] == c
  {
    if |s| >= n then s else seq(n - |s|, _ => c) + s
  }

  /** `String(n).padStart(2, '0')`. */
  function Pad2(n: nat): (r: string)
    ensures AllDigits(r)
    ensures n < 100 ==> |r| == 2 && DigitsValue(r) == n
  {
    Pad2Value(n);
    PadStart(NatToString(n), 2, '0')
  }

  lemma Pad2Value(n: nat)
    ensures n < 100 ==> var r := PadStart(NatToString(n), 2, '0');
                        |r| == 2 && AllDigits(r) && DigitsValue(r) == n
  {
    if n < 100 {
      var d := NatToString(n);
      var r := PadStart(d, 2, '0');
      NatToStringLength(n);
      NatToStringRoundTrip(n);
      if n < 10 {
        assert r == ['0'] + d;
        assert r[..1] == ['0'];
        assert DigitsValue(r[..1]) == 0;
      }
    }
  }

  /** `String(n).padStart(4, '0')` (the `yyyy` field of a date format). */
  function Pad4(n: nat): (r: string)
    ensures AllDigits(r)
    ensures n < 10000 ==> |r| == 4
    ensures n >= 10000 ==> r == NatToString(n)
  {
    Pad4Short(n);
    PadStart(NatToString(n), 4, '0')
  }

  lemma Pad4Short(n: nat)
    ensures n < 10000 ==> |NatToString(n)| <= 4
  {
    if n >= 10000 {
    } else if n >= 1000 {
      NatToStringLength(n);
    } else if n >= 100 {
      NatToStringLength(n / 10);
    } else if n >= 10 {
      NatToStringLength(n);
    }
  }

  // ---------------------------------------------------------------------
  // trim

  /** The code points `String.prototype.trim` removes: WhiteSpace (tab,
      vertical tab, form feed, space, no-break space, byte order mark and the
      Zs category) and LineTerminator (section 12.2 and 12.3 of ECMA-262). */
  predicate IsJsWhiteSpace(c: char)
  {
    c == '\U{0009}' || c == '\U{000B}' || c == '\U{000C}' || c == ' ' ||
    c == '\U{00A0}' || c == '\U{FEFF}' || c == '\U{1680}' ||
    ('\U{2000}' <= c <= '\U{200A}') || c == '\U{202F}' || c == '\U{205F}' ||
    c == '\U{3000}' || IsLineTerminator(c)
  }

  /** LineTerminator: the characters `.` in a regular expression does not
      match. */
  predicate IsLineTerminator(c: char)
  {
    c == '\n' || c == '\r' || c == '\U{2028}' || c == '\U{2029}'
  }

  function TrimStart(s: string): (r: string)
    ensures |r| <= |s| && r == s[|s| - |r|..]
    ensures |r| > 0 ==> !IsJsWhiteSpace(r[0])
    ensures forall i :: 0 <= i < |s| - |r| ==> IsJsWhiteSpace(s[i])
  {
    if |s| > 0 && IsJsWhiteSpace(s[0]) then TrimStart(s[1..]) else s
  }

  function TrimEnd(s: string): (r: string)
    ensures |r| <= |s| && r == s[..|r|]
    ensures |r| > 0 ==> !IsJsWhiteSpace(r[|r| - 1])
    ensures forall i :: |r| <= i < |s| ==> IsJsWhiteSpace(s[i])
  {
    if |s| > 0 && IsJsWhiteSpace(s[|s| - 1]) then TrimEnd(s[..|s| - 1]) else s
  }

  /** `String.prototype.trim`. */
  function Trim(s: string): string
  {
    TrimEnd(TrimStart(s))
  }

  /** `!s.trim()`: a string is blank exactly when every character of it is
      white space or a line terminator. */
  lemma TrimEmptyIffBlank(s: string)
    ensures Trim(s) == "" <==> forall i :: 0 <= i < |s| ==> IsJsWhiteSpace(s[i])
  {
    var t := TrimStart(s);
    if Trim(s) == "" {
      assert |t| == 0;
    }
  }

  // ---------------------------------------------------------------------
  // replace

  /** `s.replace(pat, rep)` with a non-empty string pattern: only the first
      occurrence is replaced. */
  function ReplaceFirst(s: string, pat: string, rep: string): string
    requires |pat| > 0
  {
    if |s| < |pat| then s
    else if s[..|pat|] == pat then rep + s[|pat|..]
    else [s[0]] + ReplaceFirst(s[1..], pat, rep)
  }

  lemma ReplaceFirstPrefix(pat: string, rest: string)
    requires |pat| > 0
    ensures ReplaceFirst(pat + rest, pat, "") == rest
  {
    assert (pat + rest)[..|pat|] == pat;
    assert (pat + rest)[|pat|..] == rest;
  }
}
