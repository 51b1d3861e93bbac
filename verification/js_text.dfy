/** The JavaScript string built-ins the tools rely on, as pure functions over
    `seq<char>`: `String.prototype.trim`, `split` with a string separator,
    `Array.prototype.join`, `parseInt(s, 10)` and the decimal form of an integer. */
module JsText {
  import opened Wrappers

  /** ECMAScript's WhiteSpace and LineTerminator code points: the characters
      `trim` removes and `parseInt` skips before the number. */
  predicate IsSpace(c: char) {
    var n := c as int;
    || n == 0x09 || n == 0x0A || n == 0x0B || n == 0x0C || n == 0x0D
    || n == 0x20 || n == 0xA0 || n == 0x1680
    || (0x2000 <= n <= 0x200A)
    || n == 0x2028 || n == 0x2029 || n == 0x202F || n == 0x205F
    || n == 0x3000 || n == 0xFEFF
  }

  predicate AllSpace(s: string) {
    forall i :: 0 <= i < |s| ==> IsSpace(s[i])
  }

  predicate IsDigit(c: char) {
    '0' <= c <= '9'
  }

  predicate AllDigits(s: string) {
    forall i :: 0 <= i < |s| ==> IsDigit(s[i])
  }

  /** Removes leading white space; what is removed is all white space and
      what remains does not start with white space. */
  function TrimStart(s: string): (r: string)
    ensures |r| <= |s|
    ensures r == s[|s| - |r|..]
    ensures AllSpace(s[..|s| - |r|])
    ensures |r| > 0 ==> !IsSpace(r[0])
  {
    if |s| > 0 && IsSpace(s[0]) then TrimStart(s[1..]) else s
  }

  /** Removes trailing white space. */
  function TrimEnd(s: string): (r: string)
    ensures |r| <= |s|
    ensures r == s[..|r|]
    ensures AllSpace(s[|r|..])
    ensures |r| > 0 ==> !IsSpace(r[|r| - 1])
    ensures |s| > 0 && !IsSpace(s[0]) ==> |r| > 0
  {
    if |s| > 0 && IsSpace(s[|s| - 1]) then TrimEnd(s[..|s| - 1]) else s
  }

  /** `String.prototype.trim`: the text is empty exactly when the input was
      all white space; otherwise it starts and ends with a non-space. */
  function Trim(s: string): (r: string)
    ensures |r| <= |s|
    ensures r == "" <==> AllSpace(s)
    ensures |r| > 0 ==> !IsSpace(r[0]) && !IsSpace(r[|r| - 1])
  {
    var t := TrimStart(s);
    assert t == "" ==> s[..|s|] == s;
    TrimEnd(t)
  }

  /** What trimming keeps: a middle slice of the input, with only white
      space cut off on either side. */
  lemma TrimIsSlice(s: string)
    ensures exists i, j :: 0 <= i <= j <= |s| && Trim(s) == s[i..j] && AllSpace(s[..i]) && AllSpace(s[j..])
  {
    var t := TrimStart(s);
    assert t == "" ==> s[..|s|] == s;
    var r := TrimEnd(t);
    var i := |s| - |t|;
    assert s[i..i + |r|] == r && s[i + |r|..] == t[|r|..];
  }

  /** Trimming text that has no white space at either end changes nothing. */
  lemma TrimNoSpace(s: string)
    requires |s| > 0 ==> !IsSpace(s[0]) && !IsSpace(s[|s| - 1])
    ensures Trim(s) == s
  {
  }

  /** `s.split(sep)` for a non-empty separator: the pieces between the
      non-overlapping occurrences of `sep`, scanned left to right. */
  function Split(s: string, sep: string): (r: seq<string>)
    requires |sep| > 0
    ensures |r| >= 1
    decreases |s|
  {
    if |s| < |sep| then [s]
    else if s[..|sep|] == sep then [""] + Split(s[|sep|..], sep)
    else
      var rest := Split(s[1..], sep);
      [[s[0]] + rest[0]] + rest[1..]
  }

  /** `parts.join(sep)`. */
  function Join(parts: seq<string>, sep: string): string {
    if |parts| == 0 then ""
    else if |parts| == 1 then parts[0]
    else parts[0] + sep + Join(parts[1..], sep)
  }

  /** One step of `Split` when the text starts with the separator. */
  lemma SplitAtSep(s: string, sep: string)
    requires |sep| > 0 && |s| >= |sep| && s[..|sep|] == sep
    ensures Split(s, sep) == [""] + Split(s[|sep|..], sep)
  {
  }

  /** One step of `Split` when the text starts with something else. */
  lemma SplitAtChar(s: string, sep: string)
    requires |sep| > 0 && |s| >= |sep| && s[..|sep|] != sep
    ensures Split(s, sep) == [[s[0]] + Split(s[1..], sep)[0]] + Split(s[1..], sep)[1..]
  {
  }

  /** Joining with an empty first piece starts with the separator. */
  lemma JoinEmptyFirst(rest: seq<string>, sep: string)
    requires |rest| >= 1
    ensures Join([""] + rest, sep) == sep + Join(rest, sep)
  {
    assert ([""] + rest)[1..] == rest;
  }

  /** Joining after extending the first piece extends the joined text. */
  lemma JoinExtendFirst(a: string, rest: seq<string>, sep: string)
    requires |rest| >= 1
    ensures Join([a + rest[0]] + rest[1..], sep) == a + Join(rest, sep)
  {
    var r := [a + rest[0]] + rest[1..];
    if |rest| >= 2 {
      var j := Join(rest[1..], sep);
      assert r[1..] == rest[1..];
      ConcatAssoc(a, rest[0], sep, j);
    }
  }

  /** Regrouping a concatenation of four strings. */
  lemma ConcatAssoc(a: string, b: string, c: string, d: string)
    ensures (a + b) + c + d == a + (b + c + d)
  {
  }

  /** Regrouping a concatenation of three sequences. */
  lemma SeqAssoc<T>(a: seq<T>, b: seq<T>, c: seq<T>)
    ensures (a + b) + c == a + (b + c)
  {
  }

  /** Splitting loses nothing: joining the pieces back gives the text. */
  lemma {:induction false} JoinSplit(s: string, sep: string)
    requires |sep| > 0
    ensures Join(Split(s, sep), sep) == s
    decreases |s|
  {
    if |s| < |sep| {
    } else if s[..|sep|] == sep {
      var t := s[|sep|..];
      JoinSplit(t, sep);
      SplitAtSep(s, sep);
      JoinEmptyFirst(Split(t, sep), sep);
      assert s == sep + t;
    } else {
      JoinSplit(s[1..], sep);
      SplitAtChar(s, sep);
      JoinExtendFirst([s[0]], Split(s[1..], sep), sep);
      assert s == [s[0]] + s[1..];
    }
  }

  /** A one-character separator occurs in the text exactly when splitting
      yields at least two pieces. */
  lemma {:induction false} SplitCount(s: string, c: char)
    ensures c in s <==> |Split(s, [c])| >= 2
    decreases |s|
  {
    if |s| == 0 {
    } else if s[0] == c {
      assert s[..1] == [c];
    } else {
      assert s[..1] != [c];
      SplitCount(s[1..], c);
      assert c in s <==> c in s[1..] by {
        assert s == [s[0]] + s[1..];
      }
    }
  }

  /** Text without the separator character is a single piece. */
  lemma {:induction false} SplitNoSep(s: string, c: char)
    requires c !in s
    ensures Split(s, [c]) == [s]
  {
    SplitCount(s, c);
    var r := Split(s, [c]);
    JoinSplit(s, [c]);
    assert Join(r, [c]) == r[0];
  }

  /** Splitting on one character distributes over a separator occurrence. */
  lemma {:induction false} SplitAppend(a: string, b: string, c: char)
    ensures Split(a + [c] + b, [c]) == Split(a, [c]) + Split(b, [c])
    decreases |a|
  {
    var s := a + [c] + b;
    var B := Split(b, [c]);
    if |a| == 0 {
      assert s[..1] == [c] && s[1..] == b;
      SplitAtSep(s, [c]);
      assert Split(a, [c]) == [""];
    } else {
      assert s[1..] == a[1..] + [c] + b;
      assert s[..1] == a[..1];
      SplitAppend(a[1..], b, c);
      var A := Split(a[1..], [c]);
      if a[0] == c {
        SplitAtSep(s, [c]);
        SplitAtSep(a, [c]);
        SeqAssoc([""], A, B);
      } else {
        SplitAtChar(s, [c]);
        SplitAtChar(a, [c]);
        assert (A + B)[0] == A[0];
        assert (A + B)[1..] == A[1..] + B;
        SeqAssoc([[a[0]] + A[0]], A[1..], B);
      }
    }
  }

  /** Joining pieces that do not contain the separator character and
      splitting again gives the pieces back. */
  lemma {:induction false} SplitJoin(parts: seq<string>, c: char)
    requires |parts| >= 1
    requires forall k :: 0 <= k < |parts| ==> c !in parts[k]
    ensures Split(Join(parts, [c]), [c]) == parts
    decreases |parts|
  {
    if |parts| == 1 {
      SplitNoSep(parts[0], c);
    } else {
      SplitJoin(parts[1..], c);
      SplitAppend(parts[0], Join(parts[1..], [c]), c);
      SplitNoSep(parts[0], c);
      assert parts == [parts[0]] + parts[1..];
    }
  }

  /** A character that is not part of the separator survives into one of
      the pieces. */
  lemma {:induction false} SplitKeepsChar(s: string, sep: string, i: int)
    requires |sep| > 0
    requires 0 <= i < |s| && s[i] !in sep
    ensures exists k :: 0 <= k < |Split(s, sep)| && s[i] in Split(s, sep)[k]
    decreases |s|
  {
    if |s| < |sep| {
      assert s[i] in Split(s, sep)[0];
    } else if s[..|sep|] == sep {
      if i < |sep| {
        assert false;
      }
      var t := s[|sep|..];
      var rest := Split(t, sep);
      assert t[i - |sep|] == s[i];
      SplitKeepsChar(t, sep, i - |sep|);
      SplitAtSep(s, sep);
      var k :| 0 <= k < |rest| && s[i] in rest[k];
      assert Split(s, sep)[k + 1] == rest[k];
    } else {
      var rest := Split(s[1..], sep);
      SplitAtChar(s, sep);
      var r := Split(s, sep);
      if i == 0 {
        assert r[0][0] == s[0];
      } else {
        assert s[1..][i - 1] == s[i];
        SplitKeepsChar(s[1..], sep, i - 1);
        var k :| 0 <= k < |rest| && s[i] in rest[k];
        if k == 0 {
          assert r[0] == [s[0]] + rest[0];
          assert s[i] in r[0];
        } else {
          assert r[k] == rest[k];
        }
      }
    }
  }

  /** A text holding the separator character once splits into the two
      sides. */
  lemma SplitTwo(a: string, b: string, c: char)
    requires c !in a && c !in b
    ensures Split(a + [c] + b, [c]) == [a, b]
  {
    SplitAppend(a, b, c);
    SplitNoSep(a, c);
    SplitNoSep(b, c);
  }

  /** The longest prefix made of decimal digits. */
  function DigitPrefix(s: string): (r: string)
    ensures |r| <= |s|
    ensures r == s[..|r|]
    ensures AllDigits(r)
    ensures |r| < |s| ==> !IsDigit(s[|r|])
  {
    if |s| > 0 && IsDigit(s[0]) then [s[0]] + DigitPrefix(s[1..]) else ""
  }

  function DigitValue(c: char): nat
    requires IsDigit(c)
  {
    c as int - '0' as int
  }

  /** The number a string of decimal digits denotes, most significant first. */
  function DigitsValue(ds: string): nat
    requires AllDigits(ds)
  {
    if |ds| == 0 then 0
    else DigitsValue(ds[..|ds| - 1]) * 10 + DigitValue(ds[|ds| - 1])
  }

  /** The decimal form of a natural number, as `String(n)` writes it: digits
      only, no leading zero, and denoting `n`. */
  function NatToDecimal(n: nat): (r: string)
    ensures |r| >= 1 && AllDigits(r)
    ensures DigitsValue(r) == n
  {
    var d := ['0' + (n % 10) as char];
    if n < 10 then d
    else
      var r := NatToDecimal(n / 10) + d;
      assert r[..|r| - 1] == NatToDecimal(n / 10);
      r
  }

  /** Only zero is written with a leading zero. */
  lemma {:induction false} NatToDecimalNoLeadingZero(n: nat)
    ensures NatToDecimal(n)[0] == '0' ==> n == 0
  {
    if n >= 10 {
      NatToDecimalNoLeadingZero(n / 10);
      assert NatToDecimal(n)[0] == NatToDecimal(n / 10)[0];
    }
  }

  /** The decimal form of an integer: a minus sign before negative ones. */
  function IntToDecimal(i: int): string {
    if i < 0 then "-" + NatToDecimal(-i) else NatToDecimal(i)
  }

  /** Whether `t` starts with an optional sign followed by a digit. */
  predicate StartsNumber(t: string) {
    || (|t| > 0 && IsDigit(t[0]))
    || (|t| > 1 && (t[0] == '+' || t[0] == '-') && IsDigit(t[1]))
  }

  /** `parseInt(s, 10)`: skip leading white space, then read a signed number.
      `None` is `NaN`. */
  function ParseInt(s: string): (r: Option<int>)
    ensures r.None? <==> !StartsNumber(TrimStart(s))
  {
    ParseSigned(TrimStart(s))
  }

  /** An optional sign and the longest run of digits after it; `None` exactly
      when no digit follows the sign. */
  function ParseSigned(t: string): (r: Option<int>)
    ensures r.None? <==> !StartsNumber(t)
  {
    if |t| > 0 && t[0] == '-' then
      match Magnitude(t[1..])
      case None => None
      case Some(m) => Some(-(m as int))
    else if |t| > 0 && t[0] == '+' then Magnitude(t[1..])
    else Magnitude(t)
  }

  /** The value of the longest run of digits at the start of `s`. */
  function Magnitude(s: string): (r: Option<nat>)
    ensures r.None? <==> (|s| == 0 || !IsDigit(s[0]))
  {
    var ds := DigitPrefix(s);
    if |ds| == 0 then None else Some(DigitsValue(ds))
  }

  /** The digits of a decimal are its own longest digit prefix when what
      follows is not a digit. */
  lemma {:induction false} DigitPrefixOfDecimal(ds: string, rest: string)
    requires AllDigits(ds)
    requires rest == "" || !IsDigit(rest[0])
    ensures DigitPrefix(ds + rest) == ds
    decreases |ds|
  {
    if |ds| == 0 {
      assert ds + rest == rest;
    } else {
      assert (ds + rest)[1..] == ds[1..] + rest;
      DigitPrefixOfDecimal(ds[1..], rest);
      assert ds == [ds[0]] + ds[1..];
    }
  }

  /** A decimal followed by a non-digit reads back as its value. */
  lemma MagnitudeDecimal(ds: string, rest: string)
    requires |ds| >= 1 && AllDigits(ds)
    requires rest == "" || !IsDigit(rest[0])
    ensures Magnitude(ds + rest) == Some(DigitsValue(ds))
  {
    DigitPrefixOfDecimal(ds, rest);
  }

  /** Text that starts with a digit is read as an unsigned number. */
  lemma ParseIntDigitStart(t: string)
    requires |t| > 0 && IsDigit(t[0])
    ensures ParseInt(t) == Magnitude(t)
  {
    assert TrimStart(t) == t;
  }

  /** `parseInt` reads a run of digits followed by a non-digit as the value
      the digits denote. */
  lemma ParseIntDigits(ds: string, rest: string)
    requires |ds| >= 1 && AllDigits(ds)
    requires rest == "" || !IsDigit(rest[0])
    ensures ParseInt(ds + rest) == Some(DigitsValue(ds) as int)
  {
    MagnitudeDecimal(ds, rest);
    assert (ds + rest)[0] == ds[0];
    ParseIntDigitStart(ds + rest);
  }

  /** `parseInt` reads back the decimal form of a natural number, whatever
      non-digit text follows it. */
  lemma ParseIntDecimal(n: nat, rest: string)
    requires rest == "" || !IsDigit(rest[0])
    ensures ParseInt(NatToDecimal(n) + rest) == Some(n)
  {
    ParseIntDigits(NatToDecimal(n), rest);
  }

  /** Leading white space does not change what `TrimStart` leaves. */
  lemma {:induction false} TrimStartSkipsSpace(w: string, s: string)
    requires AllSpace(w)
    ensures TrimStart(w + s) == TrimStart(s)
    decreases |w|
  {
    if |w| > 0 {
      assert (w + s)[1..] == w[1..] + s;
      TrimStartSkipsSpace(w[1..], s);
    } else {
      assert w + s == s;
    }
  }

  /** `parseInt` ignores leading white space. */
  lemma ParseIntSkipsSpace(w: string, s: string)
    requires AllSpace(w)
    ensures ParseInt(w + s) == ParseInt(s)
  {
    TrimStartSkipsSpace(w, s);
  }

  /** `parseInt` reads a signed decimal after any leading white space: a
      minus sign negates the number, a plus sign leaves it as it is. */
  lemma ParseIntSigned(w: string, n: nat, rest: string)
    requires AllSpace(w)
    requires rest == "" || !IsDigit(rest[0])
    ensures ParseInt(w + "-" + NatToDecimal(n) + rest) == Some(-(n as int))
    ensures ParseInt(w + "+" + NatToDecimal(n) + rest) == Some(n as int)
  {
    var d := NatToDecimal(n);
    assert "-" == ['-'] && "+" == ['+'];
    assert w + "-" + d + rest == w + (['-'] + d + rest);
    assert w + "+" + d + rest == w + (['+'] + d + rest);
    SignedRead('-', n, rest);
    SignedRead('+', n, rest);
    ParseIntSkipsSpace(w, ['-'] + d + rest);
    ParseIntSkipsSpace(w, ['+'] + d + rest);
  }

  lemma SignedRead(c: char, n: nat, rest: string)
    requires c == '-' || c == '+'
    requires rest == "" || !IsDigit(rest[0])
    ensures ParseInt([c] + NatToDecimal(n) + rest) == Some(if c == '-' then -(n as int) else n as int)
  {
    var ds := NatToDecimal(n);
    SignStart([c] + ds + rest, c, n) by {
      ConsTail(c, ds, rest);
      MagnitudeDecimal(ds, rest);
    }
  }

  lemma SignStart(t: string, c: char, v: nat)
    requires |t| > 0 && t[0] == c && (c == '-' || c == '+')
    requires Magnitude(t[1..]) == Some(v)
    ensures ParseInt(t) == Some(if c == '-' then -(v as int) else v as int)
  {
    assert TrimStart(t) == t;
    SignedMagnitude(t, c, v);
  }

  lemma SignedMagnitude(t: string, c: char, v: nat)
    requires |t| > 0 && t[0] == c && (c == '-' || c == '+')
    requires Magnitude(t[1..]) == Some(v)
    ensures ParseSigned(t) == Some(if c == '-' then -(v as int) else v as int)
  {
  }

  lemma ConsTail<T>(c: T, a: seq<T>, b: seq<T>)
    ensures ([c] + a + b)[0] == c && ([c] + a + b)[1..] == a + b
  {
  }

  /** A run of digits holds no character that is not a digit. */
  lemma DigitsLack(ds: string, c: char)
    requires AllDigits(ds) && !IsDigit(c)
    ensures c !in ds
  {
  }

  /** Trimming leaves a run of digits as it is. */
  lemma DigitsTrim(ds: string)
    requires AllDigits(ds)
    ensures Trim(ds) == ds
  {
    if |ds| > 0 {
      assert IsDigit(ds[0]) && IsDigit(ds[|ds| - 1]);
      TrimNoSpace(ds);
    }
  }

  /** `parseInt` reads the decimal form of a natural number, alone, back. */
  lemma ParseIntWhole(n: nat)
    ensures ParseInt(NatToDecimal(n)) == Some(n)
  {
    ParseIntDecimal(n, "");
    assert NatToDecimal(n) + "" == NatToDecimal(n);
  }
}
