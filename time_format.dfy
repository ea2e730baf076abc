/** The `formatTime` helper that both quiz controllers use to show the
    countdown as `m:ss`, together with its inverse. */
module TimeFormat {
  import opened QuizData

  predicate IsDigit(c: char) { '0' <= c <= '9' }

  predicate AllDigits(s: string) { forall i :: 0 <= i < |s| ==> IsDigit(s[i]) }

  function DigitChar(d: nat): (c: char)
    requires d < 10
    ensures IsDigit(c) && c as int - '0' as int == d
  {
    ('0' as int + d) as char
  }

  /** `n.toString()` for the non-negative whole numbers the clocks hold: its
      decimal digits, most significant first, no leading zero. */
  function Decimal(n: nat): (r: string)
    ensures 1 <= |r| && AllDigits(r)
    ensures |r| == 1 <==> n < 10
    ensures n >= 10 ==> r[0] != '0'
    decreases n
  {
    if n < 10 then [DigitChar(n)] else Decimal(n / 10) + [DigitChar(n % 10)]
  }

  /** The number a string of decimal digits denotes. */
  function DigitsValue(s: string): nat
    requires AllDigits(s)
  {
    if |s| == 0 then 0 else DigitsValue(s[..|s| - 1]) * 10 + (s[|s| - 1] as int - '0' as int)
  }

  /** `s.padStart(2, '0')`. */
  function PadStart2(s: string): (r: string)
    ensures |r| == if |s| >= 2 then |s| else 2
  {
    if |s| >= 2 then s else seq(2 - |s|, _ => '0') + s
  }

  /** `${Math.floor(seconds / 60)}:${(seconds % 60).toString().padStart(2, '0')}`
      for the non-negative whole number of seconds both controllers hold. */
  function FormatTime(seconds: nat): string
  {
    Decimal(seconds / 60) + ":" + PadStart2(Decimal(seconds % 60))
  }

  /** Index of the first ':' in `s`, or |s| if there is none. */
  function ColonIndex(s: string): (k: nat)
    ensures k <= |s|
    ensures forall j :: 0 <= j < k ==> s[j] != ':'
    ensures k < |s| ==> s[k] == ':'
  {
    if |s| == 0 then 0 else if s[0] == ':' then 0 else 1 + ColonIndex(s[1..])
  }

  /** Reads an `m:ss` display back into seconds; None for anything that is
      not such a display (a missing colon, an empty or non-digit minute
      part, a seconds part that is not two digits below 60). */
  function ParseTime(t: string): Option<nat>
  {
    var k := ColonIndex(t);
    if k == |t| then None
    else
      var m, ss := t[..k], t[k + 1..];
      if |m| == 0 || !AllDigits(m) || |ss| != 2 || !AllDigits(ss) || DigitsValue(ss) >= 60 then None
      else Some(DigitsValue(m) * 60 + DigitsValue(ss))
  }

  lemma {:induction false} DecimalValue(n: nat)
    ensures DigitsValue(Decimal(n)) == n
    decreases n
  {
    if n >= 10 {
      var s := Decimal(n / 10);
      DecimalValue(n / 10);
      assert (s + [DigitChar(n % 10)])[..|s|] == s;
    }
  }

  /** The seconds part is always two digits and reads back as `s % 60`. */
  lemma SecondsField(s: nat)
    ensures var f := PadStart2(Decimal(s % 60)); |f| == 2 && AllDigits(f) && DigitsValue(f) == s % 60
  {
    var d := Decimal(s % 60);
    DecimalValue(s % 60);
    if |d| == 1 {
      var f := PadStart2(d);
      assert f == ['0', d[0]];
      assert f[..1] == ['0'];
      assert [d[0]][..0] == [];
    }
  }

  /** The display determines the number of seconds: minutes * 60 + seconds
      gives back the input, for every non-negative input. */
  lemma FormatTimeRoundTrip(seconds: nat)
    ensures ParseTime(FormatTime(seconds)) == Some(seconds)
  {
    var m, f := Decimal(seconds / 60), PadStart2(Decimal(seconds % 60));
    var t := FormatTime(seconds);
    assert t == m + [':'] + f;
    SecondsField(seconds);
    DecimalValue(seconds / 60);
    assert forall j :: 0 <= j < |m| ==> t[j] == m[j] && t[j] != ':';
    assert t[|m|] == ':';
    assert ColonIndex(t) == |m|;
    assert t[..|m|] == m;
    assert t[|m| + 1..] == f;
  }
}
