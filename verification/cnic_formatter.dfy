/**
 * The Pakistani national-ID (CNIC) mask `00000-0000000-0`: the format
 * regular expression and the live-typing formatter of
 * src/utils/cnicFormatter.js.
 */
module CnicFormatter {
  import opened Text

  /** `/^\d{5}-\d{7}-\d{1}$/.test(s)`: five digits, a dash, seven digits, a
      dash, one digit, and nothing else. */
  predicate MatchesCnicRegex(s: string) {
    && |s| == 15
    && AllDigits(s[..5]) && s[5] == '-'
    && AllDigits(s[6..13]) && s[13] == '-'
    && IsDigit(s[14])
  }

  /** `s.replace(/\D/g, "")`: the ASCII digits of `s`, in order. */
  function Digits(s: string): (d: string)
    ensures AllDigits(d) && |d| <= |s|
  {
    if s == [] then [] else (if IsDigit(s[0]) then [s[0]] else []) + Digits(s[1..])
  }

  /** At most the first 13 characters (`if (v.length > 13) v = v.slice(0, 13)`). */
  function Take13(v: string): (t: string)
    ensures |t| <= 13
    ensures |v| <= 13 ==> t == v
    ensures |v| > 13 ==> t == v[..13]
  {
    if |v| > 13 then v[..13] else v
  }

  function Min(a: int, b: int): int {
    if a < b then a else b
  }

  /** The dash insertion: the first five characters, then a dash and the next
      seven when there are more than five, then a dash and the thirteenth
      when there are more than twelve. */
  function Group(v: string): string {
    var head := if |v| > 0 then v[..Min(5, |v|)] else "";
    var mid := if |v| > 5 then head + "-" + v[5..Min(12, |v|)] else head;
    if |v| > 12 then mid + "-" + v[12..13] else mid
  }

  /** The source position in `v` of the character at index `i` of `Group(v)`
      that is not a dash. */
  function SourceIndex(i: nat): nat {
    if i < 5 then i else if i < 13 then i - 1 else i - 2
  }

  /** Where the dashes fall in a formatted mask of k retained digits. */
  predicate IsDashSlot(i: int, k: nat) {
    (i == 5 && k > 5) || (i == 13 && k > 12)
  }

  function MaskLength(k: nat): nat {
    k + (if k > 5 then 1 else 0) + (if k > 12 then 1 else 0)
  }

  /** Character-level description of `Group` on at most 13 characters. */
  lemma GroupShape(v: string)
    requires |v| <= 13
    ensures |Group(v)| == MaskLength(|v|)
    ensures forall i :: 0 <= i < |Group(v)| ==>
      (if IsDashSlot(i, |v|) then Group(v)[i] == '-'
       else SourceIndex(i) < |v| && Group(v)[i] == v[SourceIndex(i)])
  {
  }

  lemma {:induction false} DigitsAppend(a: string, b: string)
    ensures Digits(a + b) == Digits(a) + Digits(b)
  {
    if a != [] {
      var head := if IsDigit(a[0]) then [a[0]] else [];
      assert (a + b)[0] == a[0];
      assert (a + b)[1..] == a[1..] + b;
      DigitsAppend(a[1..], b);
      assert Digits(a + b) == head + Digits(a[1..] + b);
      assert Digits(a) == head + Digits(a[1..]);
    } else {
      assert a + b == b;
    }
  }

  lemma {:induction false} DigitsOfDigits(s: string)
    requires AllDigits(s)
    ensures Digits(s) == s
  {
    if s != [] {
      DigitsOfDigits(s[1..]);
    }
  }

  /** A dash between two texts contributes no digit. */
  lemma DigitsAroundDash(a: string, b: string)
    ensures Digits(a + "-" + b) == Digits(a) + Digits(b)
  {
    DigitsAppend(a + "-", b);
    DigitsAppend(a, "-");
    assert Digits("-") == "";
  }

  /** Stripping the non-digits of a grouped mask gives back the digits. */
  lemma DigitsOfGroup(v: string)
    requires AllDigits(v) && |v| <= 13
    ensures Digits(Group(v)) == v
  {
    if |v| <= 5 {
      assert Group(v) == v;
      DigitsOfDigits(v);
    } else if |v| <= 12 {
      DigitsOfTwoGroups(v);
    } else {
      DigitsOfThreeGroups(v);
    }
  }

  lemma DigitsOfTwoGroups(v: string)
    requires AllDigits(v) && 5 < |v| <= 12
    ensures Digits(Group(v)) == v
  {
    assert Group(v) == v[..5] + "-" + v[5..];
    DigitsAroundDash(v[..5], v[5..]);
    DigitsOfDigits(v[..5]);
    DigitsOfDigits(v[5..]);
    assert v[..5] + v[5..] == v;
  }

  lemma DigitsOfThreeGroups(v: string)
    requires AllDigits(v) && |v| == 13
    ensures Digits(Group(v)) == v
  {
    var left := v[..5] + "-" + v[5..12];
    assert Group(v) == left + "-" + v[12..];
    DigitsAroundDash(left, v[12..]);
    DigitsAroundDash(v[..5], v[5..12]);
    DigitsOfDigits(v[..5]);
    DigitsOfDigits(v[5..12]);
    DigitsOfDigits(v[12..]);
    assert v[..5] + v[5..12] + v[12..] == v;
  }

  /** `formatCNIC(raw)`. */
  function FormatCnic(raw: string): (r: string)
    // only digits and dashes
    ensures forall i :: 0 <= i < |r| ==> IsDigit(r[i]) || r[i] == '-'
    // its digits are the first min(13, n) digits of the input, in order
    ensures Digits(r) == Take13(Digits(raw))
    ensures |r| <= 15
    ensures r == "" <==> Digits(raw) == ""
    // dashes exactly at index 5 (more than 5 digits) and 13 (13 digits)
    ensures forall i :: 0 <= i < |r| ==> (r[i] == '-' <==> IsDashSlot(i, |Take13(Digits(raw))|))
    ensures |r| == MaskLength(|Take13(Digits(raw))|)
  {
    var v := Take13(Digits(raw));
    GroupShape(v);
    DigitsOfGroup(v);
    Group(v)
  }

  /** Any input with at least 13 digits becomes a complete mask. */
  lemma FullInputMatchesRegex(raw: string)
    requires |Digits(raw)| >= 13
    ensures MatchesCnicRegex(FormatCnic(raw))
  {
    var v := Take13(Digits(raw));
    GroupShape(v);
    var r := FormatCnic(raw);
    assert AllDigits(r[..5]) by {
      forall i | 0 <= i < 5 ensures IsDigit(r[..5][i]) {
        assert r[i] == v[i];
      }
    }
    assert AllDigits(r[6..13]) by {
      forall i | 0 <= i < 7 ensures IsDigit(r[6..13][i]) {
        assert r[6 + i] == v[5 + i];
      }
    }
    assert r[14] == v[12];
  }

  /** Formatting is idempotent: the dashes are stripped before re-insertion. */
  lemma FormatIdempotent(raw: string)
    ensures FormatCnic(FormatCnic(raw)) == FormatCnic(raw)
  {
    var v := Take13(Digits(raw));
    DigitsOfGroup(v);
  }

  /** Strings the regex accepts are left unchanged by the formatter. */
  lemma RegexMatchIsFixedPoint(s: string)
    requires MatchesCnicRegex(s)
    ensures FormatCnic(s) == s
  {
    assert s == s[..5] + [s[5]] + s[6..13] + [s[13]] + s[14..];
    DigitsAppend(s[..5] + [s[5]] + s[6..13] + [s[13]], s[14..]);
    DigitsAppend(s[..5] + [s[5]] + s[6..13], [s[13]]);
    DigitsAppend(s[..5] + [s[5]], s[6..13]);
    DigitsAppend(s[..5], [s[5]]);
    DigitsOfDigits(s[..5]);
    DigitsOfDigits(s[6..13]);
    DigitsOfDigits(s[14..]);
    assert Digits([s[5]]) == [] && Digits([s[13]]) == [];
    var v := s[..5] + s[6..13] + s[14..];
    assert Digits(s) == v;
    GroupShape(v);
    assert FormatCnic(s) == Group(v);
  }

  /** The regex accepts exactly the complete masks: the formatter's fixed
      points that carry at least 13 digits. */
  lemma RegexIffCompleteMask(s: string)
    ensures MatchesCnicRegex(s) <==> (FormatCnic(s) == s && |Digits(s)| >= 13)
  {
    if MatchesCnicRegex(s) {
      RegexMatchIsFixedPoint(s);
      assert |Take13(Digits(s))| == 13 by {
        assert |FormatCnic(s)| == 15;
      }
    }
    if FormatCnic(s) == s && |Digits(s)| >= 13 {
      FullInputMatchesRegex(s);
    }
  }

  /** Re-formatting at every keystroke equals formatting everything typed:
      appending `typed` to the formatted text and formatting again gives the
      same mask as formatting the raw text with `typed` appended. */
  lemma FormatThenTypeAgrees(raw: string, typed: string)
    ensures FormatCnic(FormatCnic(raw) + typed) == FormatCnic(raw + typed)
  {
    var d := Digits(raw);
    var v := Take13(d);
    DigitsAppend(FormatCnic(raw), typed);
    DigitsAppend(raw, typed);
    var e := Digits(typed);
    assert Take13(v + e) == Take13(d + e) by {
      if |d| >= 13 {
        assert (v + e)[..13] == v == d[..13] == (d + e)[..13];
      }
    }
  }

  /** A run of exactly 13 digits is split 5-7-1. */
  lemma FormatThirteenDigits(v: string)
    requires AllDigits(v) && |v| == 13
    ensures FormatCnic(v) == v[..5] + "-" + v[5..12] + "-" + v[12..]
  {
    DigitsOfDigits(v);
  }

  lemma FormatExample(s: string)
    requires s == "1234567890123"
    ensures FormatCnic(s) == "12345-6789012-3"
  {
    ExampleDigits(s);
    FormatThirteenDigits(s);
    ExampleSlices(s);
  }

  lemma ExampleDigits(s: string)
    requires s == "1234567890123"
    ensures AllDigits(s) && |s| == 13
  {
  }

  lemma ExampleSlices(s: string)
    requires s == "1234567890123"
    ensures s[..5] + "-" + s[5..12] + "-" + s[12..] == "12345-6789012-3"
  {
    assert s[..5] == "12345";
    assert s[5..12] == "6789012";
    assert s[12..] == "3";
  }
}
