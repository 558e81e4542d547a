/** The string operations the replay decoder relies on, restricted to ASCII:
    `split(',')`, `trim()`, `Number.parseInt(s, 10)`, and the decimal
    rendering of an integer that writes a transcript. */
module Text {
  import opened Js

  /** `s.split(sep)`: the pieces between the separators, in order. */
  function Split(s: string, sep: char): (r: seq<string>)
    ensures |r| >= 1
    ensures forall i :: 0 <= i < |r| ==> sep !in r[i]
    ensures Join(r, sep) == s
    decreases |s|
  {
    if s == [] then [""]
    else
      var rest := Split(s[1..], sep);
      if s[0] == sep then [""] + rest
      else
        assert Join(rest, sep) == s[1..];
        JoinCons(rest, sep, s[0]);
        [[s[0]] + rest[0]] + rest[1..]
  }

  /** `pieces.join(sep)`. */
  function Join(pieces: seq<string>, sep: char): string
    requires |pieces| >= 1
    decreases |pieces|
  {
    if |pieces| == 1 then pieces[0] else pieces[0] + [sep] + Join(pieces[1..], sep)
  }

  /** Prepending a character to the first piece prepends it to the join. */
  lemma JoinCons(pieces: seq<string>, sep: char, ch: char)
    requires |pieces| >= 1
    ensures Join([[ch] + pieces[0]] + pieces[1..], sep) == [ch] + Join(pieces, sep)
  {
    var p := [[ch] + pieces[0]] + pieces[1..];
    assert p[1..] == pieces[1..];
  }

  /** Splitting a joined list of separator-free pieces gives the pieces back. */
  lemma {:induction false} SplitJoin(pieces: seq<string>, sep: char)
    requires |pieces| >= 1
    requires forall i :: 0 <= i < |pieces| ==> sep !in pieces[i]
    ensures Split(Join(pieces, sep), sep) == pieces
    decreases |pieces|
  {
    var head := pieces[0];
    if |pieces| == 1 {
      SplitFree(head, [], sep);
      assert head + [] == head;
      assert Split([], sep) == [""];
      assert head + "" == head;
    } else {
      var tail := pieces[1..];
      assert forall i :: 0 <= i < |tail| ==> sep !in tail[i] by {
        forall i | 0 <= i < |tail|
          ensures sep !in tail[i]
        {
          assert tail[i] == pieces[i + 1];
        }
      }
      SplitJoin(tail, sep);
      var rest := Join(tail, sep);
      assert Join(pieces, sep) == head + ([sep] + rest);
      SplitAtSep(rest, sep);
      SplitFree(head, [sep] + rest, sep);
      assert head + "" == head;
      assert [head] + tail == pieces;
    }
  }

  /** A leading separator splits off an empty piece. */
  lemma SplitAtSep(t: string, sep: char)
    ensures Split([sep] + t, sep) == [""] + Split(t, sep)
  {
    assert ([sep] + t)[1..] == t;
  }

  /** A separator-free prefix sticks to the first piece of the split. */
  lemma {:induction false} SplitFree(p: string, t: string, sep: char)
    requires sep !in p
    ensures Split(p + t, sep) == [p + Split(t, sep)[0]] + Split(t, sep)[1..]
    decreases |p|
  {
    var q := Split(t, sep);
    if p == [] {
      assert p + t == t;
      assert p + q[0] == q[0];
      assert q == [q[0]] + q[1..];
    } else {
      assert (p + t)[1..] == p[1..] + t;
      assert (p + t)[0] == p[0];
      SplitFree(p[1..], t, sep);
      assert [p[0]] + (p[1..] + q[0]) == p + q[0];
    }
  }

  /** The ASCII characters `trim()` removes. */
  predicate IsSpace(ch: char) {
    ch == ' ' || ch == '\t' || ch == '\n' || ch == '\r' || ch == '\U{B}' || ch == '\U{C}'
  }

  /** `s` without its leading white space. */
  function TrimStart(s: string): (r: string)
    ensures |r| <= |s| && r == s[|s| - |r|..]
    ensures forall k :: 0 <= k < |s| - |r| ==> IsSpace(s[k])
    ensures r != [] ==> !IsSpace(r[0])
    decreases |s|
  {
    if s != [] && IsSpace(s[0]) then TrimStart(s[1..]) else s
  }

  /** `s` without its trailing white space. */
  function TrimEnd(s: string): (r: string)
    ensures |r| <= |s| && r == s[..|r|]
    ensures forall k :: |r| <= k < |s| ==> IsSpace(s[k])
    ensures r != [] ==> !IsSpace(r[|r| - 1])
    decreases |s|
  {
    if s != [] && IsSpace(s[|s| - 1]) then TrimEnd(s[..|s| - 1]) else s
  }

  /** `r` is `s[i..]` cut where only white space surrounds it. */
  predicate IsTrimAt(s: string, r: string, i: int) {
    && 0 <= i <= |s| - |r|
    && r == s[i..i + |r|]
    && (forall k :: 0 <= k < i ==> IsSpace(s[k]))
    && (forall k :: i + |r| <= k < |s| ==> IsSpace(s[k]))
  }

  /** `s.trim()`: the part of `s` between its leading and trailing white
      space, which it does not start or end with. */
  function Trim(s: string): (r: string)
    ensures exists i :: IsTrimAt(s, r, i)
    ensures r != [] ==> !IsSpace(r[0]) && !IsSpace(r[|r| - 1])
  {
    var t := TrimStart(s);
    var r := TrimEnd(t);
    var i := |s| - |t|;
    assert r == s[i..i + |r|];
    assert forall k :: i + |r| <= k < |s| ==> IsSpace(s[k]) by {
      forall k | i + |r| <= k < |s|
        ensures IsSpace(s[k])
      {
        assert s[k] == t[k - i];
      }
    }
    assert IsTrimAt(s, r, i);
    r
  }

  /** Trimming adds no character: one `s` lacks, its trim lacks too. */
  lemma TrimExcludes(s: string, ch: char)
    requires ch !in s
    ensures ch !in Trim(s)
  {
    var r := Trim(s);
    var i :| IsTrimAt(s, r, i);
    assert r == s[i..i + |r|];
  }

  /** A string with no white space at either end is its own trim. */
  lemma TrimNoSpace(s: string)
    requires s != [] ==> !IsSpace(s[0]) && !IsSpace(s[|s| - 1])
    ensures Trim(s) == s
  {
    assert TrimStart(s) == s;
    assert TrimEnd(s) == s;
  }

  predicate IsDigit(ch: char) {
    '0' <= ch <= '9'
  }

  function DigitValue(ch: char): nat
    requires IsDigit(ch)
  {
    (ch as int) - ('0' as int)
  }

  function DigitChar(n: nat): (ch: char)
    requires n < 10
    ensures IsDigit(ch) && DigitValue(ch) == n
  {
    (('0' as int) + n) as char
  }

  /** The longest prefix of `s` made of decimal digits. */
  function DigitPrefix(s: string): (r: string)
    ensures |r| <= |s| && r == s[..|r|]
    ensures forall k :: 0 <= k < |r| ==> IsDigit(r[k])
    ensures |r| < |s| ==> !IsDigit(s[|r|])
    decreases |s|
  {
    if s != [] && IsDigit(s[0]) then [s[0]] + DigitPrefix(s[1..]) else []
  }

  /** The number a run of decimal digits denotes, most significant first. */
  function DigitsValue(ds: string): nat
    requires forall k :: 0 <= k < |ds| ==> IsDigit(ds[k])
    decreases |ds|
  {
    if ds == [] then 0 else DigitsValue(ds[..|ds| - 1]) * 10 + DigitValue(ds[|ds| - 1])
  }

  /** `Number.parseInt(s, 10)` on a trimmed ASCII token: an optional sign,
      then the longest run of decimal digits; NaN (`None`) without a digit. */
  function ParseInt(s: string): (r: Option<int>)
    ensures var start := if s != [] && (s[0] == '-' || s[0] == '+') then 1 else 0;
      r.None? <==> start == |s| || !IsDigit(s[start])
    ensures r.Some? && s != [] && s[0] == '-' ==> r.value <= 0
    ensures r.Some? && (s == [] || s[0] != '-') ==> r.value >= 0
  {
    var negative := s != [] && s[0] == '-';
    var body := if s != [] && (s[0] == '-' || s[0] == '+') then s[1..] else s;
    var ds := DigitPrefix(body);
    if ds == [] then None
    else
      var magnitude: int := DigitsValue(ds);
      Some(if negative then -magnitude else magnitude)
  }

  /** The decimal digits of a natural number, without leading zeros. */
  function NatToDecimal(n: nat): (r: string)
    ensures r != []
    ensures forall k :: 0 <= k < |r| ==> IsDigit(r[k])
    ensures DigitsValue(r) == n
    decreases n
  {
    if n < 10 then [DigitChar(n)]
    else
      var r := NatToDecimal(n / 10) + [DigitChar(n % 10)];
      assert r[..|r| - 1] == NatToDecimal(n / 10);
      r
  }

  /** `String(n)` for an integer. */
  function IntToString(n: int): (r: string)
    ensures r != []
    ensures ',' !in r
    ensures !IsSpace(r[0]) && !IsSpace(r[|r| - 1])
  {
    if n < 0 then "-" + NatToDecimal(-n) else NatToDecimal(n)
  }

  /** The longest digit prefix of a digit run followed by a non-digit is the run. */
  lemma {:induction false} DigitPrefixOfDigits(ds: string, t: string)
    requires forall k :: 0 <= k < |ds| ==> IsDigit(ds[k])
    requires t != [] ==> !IsDigit(t[0])
    ensures DigitPrefix(ds + t) == ds
    decreases |ds|
  {
    if ds == [] {
      assert ds + t == t;
    } else {
      assert (ds + t)[1..] == ds[1..] + t;
      DigitPrefixOfDigits(ds[1..], t);
      assert [ds[0]] + ds[1..] == ds;
    }
  }

  /** `parseInt` reads back the decimal rendering of any integer, and stops
      at the first character that is not a digit. */
  lemma ParseIntOfIntToString(n: int, t: string)
    requires t != [] ==> !IsDigit(t[0])
    ensures ParseInt(IntToString(n) + t) == Some(n)
  {
    if n < 0 {
      ParseIntNegative(n, t);
    } else {
      ParseIntDigits(NatToDecimal(n), t);
    }
  }

  /** Digits followed by a non-digit parse as the digits' value. */
  lemma ParseIntDigits(ds: string, t: string)
    requires ds != [] && forall k :: 0 <= k < |ds| ==> IsDigit(ds[k])
    requires t != [] ==> !IsDigit(t[0])
    ensures ParseInt(ds + t) == Some(DigitsValue(ds))
  {
    var s := ds + t;
    assert s[0] == ds[0];
    DigitPrefixOfDigits(ds, t);
    var magnitude: int := DigitsValue(ds);
    assert ParseInt(s) == Some(magnitude);
  }

  /** An optional sign, a run of digits and anything not starting with a
      digit parse as the run's value, negated after a minus sign: `"+7"`
      gives 7, `"-05"` gives -5 and `"-0"` gives 0. */
  lemma ParseIntSigned(sign: string, ds: string, t: string)
    requires sign == "" || sign == "+" || sign == "-"
    requires ds != [] && forall k :: 0 <= k < |ds| ==> IsDigit(ds[k])
    requires t != [] ==> !IsDigit(t[0])
    ensures var v: int := DigitsValue(ds);
      ParseInt(sign + ds + t) == Some(if sign == "-" then -v else v)
  {
    if |sign| == 0 {
      assert sign + ds == ds;
      ParseIntDigits(ds, t);
    } else {
      assert sign == [sign[0]];
      ParseIntAfterSign(sign[0], ds, t);
    }
  }

  /** A sign character, digits and a non-digit: the sign is read, then the digits. */
  lemma ParseIntAfterSign(c: char, ds: string, t: string)
    requires c == '+' || c == '-'
    requires ds != [] && forall k :: 0 <= k < |ds| ==> IsDigit(ds[k])
    requires t != [] ==> !IsDigit(t[0])
    ensures var v: int := DigitsValue(ds);
      ParseInt([c] + ds + t) == Some(if c == '-' then -v else v)
  {
    var s := [c] + (ds + t);
    assert [c] + ds + t == s;
    assert s[0] == c && s[1..] == ds + t;
    DigitPrefixOfDigits(ds, t);
    var magnitude: int := DigitsValue(ds);
    if c == '-' {
      ParseIntMinus(ds, t);
    } else {
      assert ParseInt(s) == Some(magnitude);
    }
  }

  /** A minus sign, digits and a non-digit parse as the digits' value negated. */
  lemma ParseIntMinus(ds: string, t: string)
    requires ds != [] && forall k :: 0 <= k < |ds| ==> IsDigit(ds[k])
    requires t != [] ==> !IsDigit(t[0])
    ensures var v: int := DigitsValue(ds);
      ParseInt(['-'] + (ds + t)) == Some(-v)
  {
    var s := ['-'] + (ds + t);
    assert s[1..] == ds + t;
    DigitPrefixOfDigits(ds, t);
    ParseIntAfterMinus(s);
  }

  /** After a minus sign, `parseInt` reads the digit prefix of the rest and negates it. */
  lemma ParseIntAfterMinus(s: string)
    requires s != [] && s[0] == '-'
    ensures var ds := DigitPrefix(s[1..]);
      ParseInt(s) == if ds == [] then None else Some(-(DigitsValue(ds) as int))
  {
  }

  /** A minus sign, digits and a non-digit parse as the negated value. */
  lemma ParseIntNegative(n: int, t: string)
    requires n < 0
    requires t != [] ==> !IsDigit(t[0])
    ensures ParseInt(IntToString(n) + t) == Some(n)
  {
    var ds := NatToDecimal(-n);
    var s := IntToString(n) + t;
    assert s == ['-'] + (ds + t);
    assert s[0] == '-' && s[1..] == ds + t;
    DigitPrefixOfDigits(ds, t);
    var magnitude: int := DigitsValue(ds);
    assert magnitude == -n;
    assert ParseInt(s) == Some(-magnitude);
  }
}
