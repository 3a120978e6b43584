/** ASCII text on the wires: splitting, joining, and hexadecimal numbers. */
module Text {

  datatype Option<+T> = None | Some(value: T)

  // ---- Splitting and joining ----

  function IndexOf(s: string, c: char): (k: nat)
    requires c in s
    ensures k < |s| && s[k] == c && c !in s[..k]
  {
    if s[0] == c then 0 else
      assert c in s[1..];
      var k := 1 + IndexOf(s[1..], c);
      assert s[..k] == [s[0]] + s[1..][..k - 1];
      k
  }

  lemma {:induction false} IndexOfUnique(s: string, c: char, k: nat)
    requires k < |s| && s[k] == c && c !in s[..k]
    ensures IndexOf(s, c) == k
  {
    if k > 0 {
      assert s[..k][0] == s[0];
      assert s[1..][..k - 1] == s[..k][1..];
      IndexOfUnique(s[1..], c, k - 1);
    }
  }

  /** The pieces between separators; always at least one, possibly empty. */
  function Split(s: string, c: char): (r: seq<string>)
    ensures |r| > 0 && forall t :: t in r ==> c !in t
  {
    if c !in s then [s] else
      var k := IndexOf(s, c);
      [s[..k]] + Split(s[k + 1..], c)
  }

  lemma SplitPiece(t: string, c: char, rest: string)
    requires c !in t
    ensures Split(t + [c] + rest, c) == [t] + Split(rest, c)
  {
    var s := t + [c] + rest;
    assert s[..|t|] == t && s[|t| + 1..] == rest;
    IndexOfUnique(s, c, |t|);
  }

  function NonEmpty(pieces: seq<string>): (r: seq<string>)
    ensures forall i :: 0 <= i < |r| ==> r[i] in pieces && r[i] != ""
  {
    if pieces == [] then []
    else if pieces[0] == "" then NonEmpty(pieces[1..])
    else [pieces[0]] + NonEmpty(pieces[1..])
  }

  predicate IsToken(t: string) { t != "" && ' ' !in t }

  predicate AreTokens(toks: seq<string>) { forall i :: 0 <= i < |toks| ==> IsToken(toks[i]) }

  /** The nonempty pieces between spaces. */
  function Tokens(s: string): (r: seq<string>)
    ensures AreTokens(r)
  {
    NonEmpty(Split(s, ' '))
  }

  function Join(toks: seq<string>): string {
    if |toks| == 0 then "" else if |toks| == 1 then toks[0] else toks[0] + " " + Join(toks[1..])
  }

  /** A token and a space in front add that token. */
  lemma TokensCons(t: string, rest: string)
    requires ' ' !in t
    ensures Tokens(t + " " + rest) == (if t == "" then [] else [t]) + Tokens(rest)
  {
    SplitPiece(t, ' ', rest);
    assert Split(t + [' '] + rest, ' ')[1..] == Split(rest, ' ');
  }

  lemma TokensSingle(t: string)
    requires ' ' !in t
    ensures Tokens(t) == if t == "" then [] else [t]
  {
    assert Split(t, ' ') == [t];
    assert [t][1..] == [] && NonEmpty([t][1..]) == [];
  }

  lemma {:induction false} SplitJoin(toks: seq<string>)
    requires AreTokens(toks) && |toks| > 0
    ensures Split(Join(toks), ' ') == toks
  {
    if |toks| == 1 {
    } else {
      SplitJoin(toks[1..]);
      SplitPiece(toks[0], ' ', Join(toks[1..]));
      assert toks[0] + " " + Join(toks[1..]) == toks[0] + [' '] + Join(toks[1..]);
    }
  }

  lemma {:induction false} NonEmptyTokens(toks: seq<string>)
    requires AreTokens(toks)
    ensures NonEmpty(toks) == toks
  {
    if toks != [] { NonEmptyTokens(toks[1..]); }
  }

  /** Joining tokens by single spaces loses none of them. */
  lemma TokensJoin(toks: seq<string>)
    requires AreTokens(toks)
    ensures Tokens(Join(toks)) == toks
  {
    if |toks| > 0 {
      SplitJoin(toks);
      NonEmptyTokens(toks);
      assert ' ' in Join(toks) || Join(toks) == toks[0];
    } else {
      TokensSingle("");
    }
  }

  lemma {:induction false} JoinTokensShorter(s: string)
    ensures |Join(Tokens(s))| <= |s|
    decreases |s|
  {
    if ' ' in s {
      var k := IndexOf(s, ' ');
      var t, rest := s[..k], s[k + 1..];
      assert s == t + " " + rest;
      TokensCons(t, rest);
      JoinTokensShorter(rest);
      if t != "" && Tokens(rest) != [] {
        assert Tokens(s)[1..] == Tokens(rest);
      }
    } else {
      TokensSingle(s);
    }
  }

  function Spaces(n: nat): (s: string)
    ensures |s| == n && forall i :: 0 <= i < n ==> s[i] == ' '
  {
    seq(n, i => ' ')
  }

  /** Tokens with gaps[i] spaces before token i and last spaces at the end. */
  function Spaced(toks: seq<string>, gaps: seq<nat>, last: nat): string
    requires |toks| == |gaps|
  {
    if toks == [] then Spaces(last)
    else Spaces(gaps[0]) + toks[0] + Spaced(toks[1..], gaps[1..], last)
  }

  lemma {:induction false} TokensSpaces(n: nat, s: string)
    ensures Tokens(Spaces(n) + s) == Tokens(s)
  {
    if n == 0 {
      assert Spaces(0) + s == s;
    } else {
      assert Spaces(n) + s == "" + " " + (Spaces(n - 1) + s);
      TokensCons("", Spaces(n - 1) + s);
      TokensSpaces(n - 1, s);
    }
  }

  /** A token is complete at the end of the text or at a following space. */
  lemma TokensAppend(t: string, rest: string)
    requires IsToken(t) && (rest == "" || rest[0] == ' ')
    ensures Tokens(t + rest) == [t] + Tokens(rest)
  {
    if rest == "" {
      assert t + rest == t;
      TokensSingle(t);
      TokensSingle("");
    } else {
      assert t + rest == t + " " + rest[1..];
      TokensCons(t, rest[1..]);
      assert rest == Spaces(1) + rest[1..];
      TokensSpaces(1, rest[1..]);
    }
  }

  lemma {:induction false} TokensSpaced(toks: seq<string>, gaps: seq<nat>, last: nat)
    requires |toks| == |gaps| && AreTokens(toks)
    requires forall i :: 0 < i < |gaps| ==> gaps[i] > 0
    ensures Tokens(Spaced(toks, gaps, last)) == toks
    decreases |toks|
  {
    if toks == [] {
      assert Spaces(last) == Spaces(last) + "";
      TokensSpaces(last, "");
      TokensSingle("");
    } else {
      var rest := Spaced(toks[1..], gaps[1..], last);
      assert Spaced(toks, gaps, last) == Spaces(gaps[0]) + (toks[0] + rest);
      TokensSpaces(gaps[0], toks[0] + rest);
      TokensSpaced(toks[1..], gaps[1..], last);
      SpacedStart(toks[1..], gaps[1..], last);
      TokensAppend(toks[0], rest);
    }
  }

  lemma SpacedStart(toks: seq<string>, gaps: seq<nat>, last: nat)
    requires |toks| == |gaps| && (toks == [] || gaps[0] > 0)
    ensures var s := Spaced(toks, gaps, last); s == "" || s[0] == ' '
  {
    if toks != [] { assert Spaced(toks, gaps, last)[0] == Spaces(gaps[0])[0]; }
  }

  // ---- Hexadecimal ----

  function HexDigit(c: char): (d: Option<nat>)
    ensures d.Some? ==> d.value < 16
  {
    if '0' <= c <= '9' then Some(c as int - '0' as int)
    else if 'A' <= c <= 'F' then Some(c as int - 'A' as int + 10)
    else if 'a' <= c <= 'f' then Some(c as int - 'a' as int + 10)
    else None
  }

  function Pow16(n: nat): (p: nat)
    ensures p > 0
  {
    if n == 0 then 1 else 16 * Pow16(n - 1)
  }

  /** The value of a string of hexadecimal digits, most significant first. */
  function HexValue(s: string): (v: Option<nat>)
    ensures v.Some? ==> v.value < Pow16(|s|)
  {
    if s == "" then Some(0) else
      match (HexValue(s[..|s| - 1]), HexDigit(s[|s| - 1]))
      case (Some(v), Some(d)) => Some(v * 16 + d)
      case _ => None
  }

  /** A token of one to limit hexadecimal digits. */
  function HexToken(s: string, limit: nat): (v: Option<nat>)
    ensures v.Some? ==> v.value < Pow16(limit)
  {
    if s == "" || |s| > limit then None else
      Pow16Grows(|s|, limit);
      HexValue(s)
  }

  lemma {:induction false} Pow16Grows(m: nat, n: nat)
    requires m <= n
    ensures Pow16(m) <= Pow16(n)
    decreases n
  {
    if m < n { Pow16Grows(m, n - 1); }
  }

  lemma Pow16Values()
    ensures Pow16(2) == 256 && Pow16(8) == 0x1_0000_0000
  {
    assert Pow16(4) == 65536;
    assert Pow16(6) == 16777216;
  }

  function HexChar(d: nat): (c: char)
    requires d < 16
    ensures HexDigit(c) == Some(d) && ('0' <= c <= '9' || 'A' <= c <= 'F')
  {
    if d < 10 then '0' + d as char else 'A' + (d - 10) as char
  }

  /** n written with exactly the given number of upper-case digits. */
  function HexText(n: nat, digits: nat): (s: string)
    requires n < Pow16(digits)
    ensures |s| == digits
    ensures forall i :: 0 <= i < |s| ==> '0' <= s[i] <= '9' || 'A' <= s[i] <= 'F'
  {
    if digits == 0 then "" else HexText(n / 16, digits - 1) + [HexChar(n % 16)]
  }

  lemma {:induction false} HexTextValue(n: nat, digits: nat)
    requires n < Pow16(digits)
    ensures HexValue(HexText(n, digits)) == Some(n)
  {
    if digits != 0 {
      var s := HexText(n, digits);
      assert s[..|s| - 1] == HexText(n / 16, digits - 1);
      HexTextValue(n / 16, digits - 1);
    }
  }

  const UPPER_DIGITS := "0123456789ABCDEF"
  const LOWER_DIGITS := "0123456789abcdef"

  /** The sixteen digits in either case, and no other character. */
  lemma DigitsExactly(c: char, d: nat)
    ensures HexDigit(c) == Some(d) <==> d < 16 && (UPPER_DIGITS[d] == c || LOWER_DIGITS[d] == c)
  {
    if d < 16 { DigitOfPlace(d); }
    if HexDigit(c).Some? { DigitOfPlace(HexDigit(c).value); }
  }

  lemma DigitOfPlace(d: nat)
    requires d < 16
    ensures UPPER_DIGITS[d] == if d < 10 then '0' + d as char else 'A' + (d - 10) as char
    ensures LOWER_DIGITS[d] == if d < 10 then '0' + d as char else 'a' + (d - 10) as char
  {
    var upper, lower := UPPER_DIGITS, LOWER_DIGITS;
    assert upper[0] == '0' && upper[1] == '1' && upper[2] == '2' && upper[3] == '3' && upper[4] == '4'
        && upper[5] == '5' && upper[6] == '6' && upper[7] == '7' && upper[8] == '8' && upper[9] == '9'
        && upper[10] == 'A' && upper[11] == 'B' && upper[12] == 'C' && upper[13] == 'D' && upper[14] == 'E'
        && upper[15] == 'F';
    assert lower[0] == '0' && lower[1] == '1' && lower[2] == '2' && lower[3] == '3' && lower[4] == '4'
        && lower[5] == '5' && lower[6] == '6' && lower[7] == '7' && lower[8] == '8' && lower[9] == '9'
        && lower[10] == 'a' && lower[11] == 'b' && lower[12] == 'c' && lower[13] == 'd' && lower[14] == 'e'
        && lower[15] == 'f';
  }

  lemma ValueSnoc(s: string, c: char)
    ensures HexValue(s + [c]) ==
      if HexValue(s).Some? && HexDigit(c).Some? then Some(HexValue(s).value * 16 + HexDigit(c).value) else None
  {
    hide HexDigit;
    assert (s + [c])[..|s|] == s;
  }

  lemma NextWeight(d: nat, n: nat, v: nat, e: nat)
    ensures (d * Pow16(n) + v) * 16 + e == d * Pow16(n + 1) + (v * 16 + e)
  {
    var p := Pow16(n);
    assert Pow16(n + 1) == 16 * p;
    assert d * (16 * p) == 16 * (d * p);
  }

  /** The first digit weighs most: sixteen to the number of digits behind it. */
  lemma {:induction false} FirstDigitWeighsMost(c: char, s: string)
    requires HexDigit(c).Some? && HexValue(s).Some?
    ensures HexValue([c] + s) == Some(HexDigit(c).value * Pow16(|s|) + HexValue(s).value)
    decreases |s|
  {
    hide HexDigit, HexValue, Pow16;
    if s == "" {
      NoDigits(c);
      assert [c] + s == [c];
    } else {
      var n := |s| - 1;
      assert s == s[..n] + [s[n]];
      ValueSnoc(s[..n], s[n]);
      FirstDigitWeighsMost(c, s[..n]);
      assert [c] + s == ([c] + s[..n]) + [s[n]];
      ValueSnoc([c] + s[..n], s[n]);
      NextWeight(HexDigit(c).value, n, HexValue(s[..n]).value, HexDigit(s[n]).value);
    }
  }

  lemma NoDigits(c: char)
    requires HexDigit(c).Some?
    ensures HexValue([c]) == Some(HexDigit(c).value) && HexValue("") == Some(0) && Pow16(0) == 1
  {
    assert [c][..0] == "";
  }

  /** Digits of upper case are the spelling of their own value. */
  lemma {:induction false} ValueHexText(s: string)
    requires forall i :: 0 <= i < |s| ==> '0' <= s[i] <= '9' || 'A' <= s[i] <= 'F'
    ensures HexValue(s).Some? && HexText(HexValue(s).value, |s|) == s
    decreases |s|
  {
    hide HexDigit, HexValue, Pow16, HexChar;
    if s == "" {
      NothingWritten();
    } else {
      var n := |s| - 1;
      assert s == s[..n] + [s[n]];
      ValueHexText(s[..n]);
      CharOfDigit(s[n]);
      ValueSnoc(s[..n], s[n]);
      TextSnoc(HexValue(s[..n]).value, HexDigit(s[n]).value, n);
    }
  }

  lemma NothingWritten()
    ensures HexValue("") == Some(0) && HexText(0, 0) == ""
  {}

  lemma TextSnoc(v: nat, d: nat, digits: nat)
    requires v < Pow16(digits) && d < 16
    ensures v * 16 + d < Pow16(digits + 1)
    ensures HexText(v * 16 + d, digits + 1) == HexText(v, digits) + [HexChar(d)]
  {
    hide HexChar;
    assert (v * 16 + d) / 16 == v && (v * 16 + d) % 16 == d;
  }

  lemma CharOfDigit(c: char)
    requires '0' <= c <= '9' || 'A' <= c <= 'F'
    ensures HexDigit(c).Some? && HexChar(HexDigit(c).value) == c
  {}
}
