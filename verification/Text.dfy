/** Numerals, searching and trimming, as the JavaScript string functions do them on byte strings. */
module Text {
  import opened TreeModel

  const TWO_32: nat := 0x1_0000_0000
  const TWO_64: nat := 0x1_0000_0000_0000_0000

  // ---- numerals ----

  function DigitChar(d: nat): char
    requires d < 16
  {
    if d < 10 then '0' + d as char else 'a' + (d - 10) as char
  }

  /** The value of a digit, 16 for a character that is no digit in any base up to 16. */
  function DigitValue(c: char): (d: nat)
    ensures d <= 16
  {
    if '0' <= c <= '9' then (c - '0') as nat
    else if 'a' <= c <= 'f' then (c - 'a') as nat + 10
    else if 'A' <= c <= 'F' then (c - 'A') as nat + 10
    else 16
  }

  predicate IsNumeral(s: string, base: nat) {
    forall i :: 0 <= i < |s| ==> DigitValue(s[i]) < base
  }

  function Numeral(n: nat, base: nat): (s: string)
    requires base == 10 || base == 16
    ensures s != "" && IsNumeral(s, base)
    decreases n
  {
    if n < base then [DigitChar(n)]
    else if base == 10 then Numeral(n / 10, base) + [DigitChar(n % 10)]
    else Numeral(n / 16, base) + [DigitChar(n % 16)]
  }

  function NumeralValue(s: string, base: nat): nat
    requires base == 10 || base == 16
  {
    if s == "" then 0
    else
      var high := NumeralValue(s[..|s| - 1], base);
      (if base == 10 then 10 * high else 16 * high) + DigitValue(s[|s| - 1])
  }

  lemma AppendDigit(s: string, d: nat, base: nat)
    requires (base == 10 || base == 16) && d < base
    ensures NumeralValue(s + [DigitChar(d)], base) ==
            (if base == 10 then 10 * NumeralValue(s, base) else 16 * NumeralValue(s, base)) + d
  {
    assert (s + [DigitChar(d)])[..|s|] == s;
  }

  lemma {:induction false} NumeralRoundTrip(n: nat, base: nat)
    requires base == 10 || base == 16
    ensures NumeralValue(Numeral(n, base), base) == n
    decreases n
  {
    if n >= base {
      var high, low := if base == 10 then n / 10 else n / 16, if base == 10 then n % 10 else n % 16;
      NumeralRoundTrip(high, base);
      assert Numeral(n, base) == Numeral(high, base) + [DigitChar(low)];
      AppendDigit(Numeral(high, base), low, base);
    } else {
      assert Numeral(n, base) == "" + [DigitChar(n)];
      AppendDigit("", n, base);
    }
  }

  /** padStart(width, '0') */
  function Padded(s: string, width: nat): (r: string)
    ensures |s| <= width ==> |r| == width
    decreases width - |s|
  {
    if |s| >= width then s else Padded("0" + s, width)
  }

  lemma {:induction false} PaddedValue(s: string, width: nat, base: nat)
    requires (base == 10 || base == 16) && IsNumeral(s, base)
    ensures IsNumeral(Padded(s, width), base)
    ensures NumeralValue(Padded(s, width), base) == NumeralValue(s, base)
    decreases width - |s|
  {
    if |s| < width {
      LeadingZero(s, base);
      PaddedValue("0" + s, width, base);
    }
  }

  lemma {:induction false} LeadingZero(s: string, base: nat)
    requires base == 10 || base == 16
    ensures NumeralValue("0" + s, base) == NumeralValue(s, base)
  {
    if s == "" {
      assert "0" + s == "0" && "0"[..0] == "";
    } else {
      LeadingZero(s[..|s| - 1], base);
      assert ("0" + s)[..|"0" + s| - 1] == "0" + s[..|s| - 1];
    }
  }

  /** A number below 16^width has at most `width` hexadecimal digits. */
  lemma {:induction false} HexLength(n: nat, width: nat)
    requires 1 <= width && n < Pow16(width)
    ensures |Numeral(n, 16)| <= width
    decreases width
  {
    if n >= 16 {
      assert Pow16(1) == 16 * Pow16(0) == 16;
      HexLength(n / 16, width - 1);
    }
  }

  function Pow16(k: nat): nat {
    if k == 0 then 1 else 16 * Pow16(k - 1)
  }

  /** A 32-bit number fits in sixteen hexadecimal and in ten decimal digits. */
  lemma Uint32Length(n: nat)
    requires n < TWO_32
    ensures |Numeral(n, 16)| <= 16 && |Numeral(n, 10)| <= 16
  {
    assert Pow16(16) == 16 * (16 * (16 * (16 * (16 * (16 * (16 * (16 * Pow16(8))))))));
    assert Pow16(8) == 16 * (16 * (16 * (16 * (16 * (16 * (16 * (16 * Pow16(0))))))));
    HexLength(n, 16);
    assert Pow8(16) == 8 * (8 * (8 * (8 * (8 * (8 * (8 * (8 * Pow8(8))))))));
    assert Pow8(8) == 8 * (8 * (8 * (8 * (8 * (8 * (8 * (8 * Pow8(0))))))));
    DecimalLength(n, 16);
  }

  function Pow8(k: nat): nat {
    if k == 0 then 1 else 8 * Pow8(k - 1)
  }

  /** Every decimal digit more needs a number at least eight times as large. */
  lemma {:induction false} DecimalLength(n: nat, width: nat)
    requires 1 <= width && n < Pow8(width)
    ensures |Numeral(n, 10)| <= width
    decreases width
  {
    if n >= 10 {
      assert Pow8(1) == 8 * Pow8(0) == 8;
      DecimalLength(n / 10, width - 1);
    }
  }

  /** The longest prefix of `s` whose characters are digits of the base. */
  function DigitsPrefix(s: string, base: nat): (n: nat)
    ensures n <= |s| && IsNumeral(s[..n], base)
    ensures n < |s| ==> DigitValue(s[n]) >= base
  {
    if s == "" || DigitValue(s[0]) >= base then 0
    else
      var n := DigitsPrefix(s[1..], base);
      assert s[..n + 1] == [s[0]] + s[1..][..n];
      n + 1
  }

  /** For base 16 a "0x", then digits; None is NaN. */
  function ParseUnsigned(u: string, base: nat): Option<int>
    requires base == 10 || base == 16
  {
    var v := if base == 16 && |u| >= 2 && u[0] == '0' && (u[1] == 'x' || u[1] == 'X') then u[2..] else u;
    var n := DigitsPrefix(v, base);
    if n == 0 then None else Some(NumeralValue(v[..n], base))
  }

  function ParseSigned(t: string, base: nat): Option<int>
    requires base == 10 || base == 16
  {
    if t != "" && t[0] == '-' then Negated(ParseUnsigned(t[1..], base))
    else if t != "" && t[0] == '+' then ParseUnsigned(t[1..], base)
    else ParseUnsigned(t, base)
  }

  function Negated(v: Option<int>): Option<int> {
    match v
    case None => None
    case Some(n) => Some(-n)
  }

  /** parseInt(s, base): leading white space, a sign, and an unsigned number. */
  function ParseInt(s: string, base: nat): Option<int>
    requires base == 10 || base == 16
  {
    ParseSigned(TrimStart(s), base)
  }

  /** parseInt(s, base) >>> 0 */
  function ParseUint32(s: string, base: nat): nat
    requires base == 10 || base == 16
  {
    match ParseInt(s, base)
    case None => 0
    case Some(v) => v % TWO_32
  }

  lemma AllDigits(s: string, base: nat)
    requires IsNumeral(s, base)
    ensures DigitsPrefix(s, base) == |s|
  {
    hide DigitsPrefix, DigitValue;
  }

  lemma NoSpaceBefore(s: string)
    requires s != "" && (DigitValue(s[0]) < 16 || s[0] == '-')
    ensures TrimStart(s) == s
  {
  }

  lemma DigitIsNoMark(c: char)
    requires DigitValue(c) < 16
    ensures c != '-' && c != '+' && c != 'x' && c != 'X'
  {
  }

  lemma UnsignedDigits(s: string, base: nat)
    requires (base == 10 || base == 16) && s != "" && IsNumeral(s, base)
    ensures ParseUnsigned(s, base) == Some(NumeralValue(s, base))
  {
    AllDigits(s, base);
    if |s| >= 2 {
      assert DigitValue(s[1]) < 16;
      DigitIsNoMark(s[1]);
    }
    hide DigitsPrefix, NumeralValue, IsNumeral, DigitValue;
    assert s[..|s|] == s;
  }

  lemma MinusSigned(s: string, base: nat)
    requires base == 10 || base == 16
    ensures ParseInt("-" + s, base) == Negated(ParseUnsigned(s, base))
  {
    hide ParseUnsigned;
    NoSpaceBefore("-" + s);
    assert ("-" + s)[1..] == s;
  }

  lemma ParseIntOfNumeral(s: string, base: nat)
    requires base == 10 || base == 16
    requires s != "" && IsNumeral(s, base)
    ensures ParseInt(s, base) == Some(NumeralValue(s, base))
  {
    assert DigitValue(s[0]) < 16;
    NoSpaceBefore(s);
    DigitIsNoMark(s[0]);
    UnsignedDigits(s, base);
    hide ParseUnsigned, NumeralValue, TrimStart, IsNumeral, DigitValue;
  }

  function Decimal(n: int): string {
    if n < 0 then "-" + Numeral(-n, 10) else Numeral(n, 10)
  }

  lemma ParseIntOfDecimal(n: int)
    ensures ParseInt(Decimal(n), 10) == Some(n)
  {
    var m := if n < 0 then -n else n;
    NumeralRoundTrip(m, 10);
    hide Numeral, NumeralValue, ParseInt, ParseUnsigned;
    var digits := Numeral(m, 10);
    if n < 0 {
      MinusSigned(digits, 10);
      UnsignedDigits(digits, 10);
    } else {
      ParseIntOfNumeral(digits, 10);
    }
  }

  // ---- white space ----

  predicate IsSpace(c: char) {
    c == ' ' || '\t' <= c <= '\r'
  }

  predicate NoSpace(s: string) {
    forall i :: 0 <= i < |s| ==> !IsSpace(s[i])
  }

  function TrimStart(s: string): string {
    if s != "" && IsSpace(s[0]) then TrimStart(s[1..]) else s
  }

  function TrimEnd(s: string): string {
    if s != "" && IsSpace(s[|s| - 1]) then TrimEnd(s[..|s| - 1]) else s
  }

  function Trim(s: string): string {
    TrimEnd(TrimStart(s))
  }

  /** The longest prefix without white space (\S*). */
  function WordPrefix(s: string): (n: nat)
    ensures n <= |s| && NoSpace(s[..n])
    ensures n < |s| ==> IsSpace(s[n])
  {
    if s == "" || IsSpace(s[0]) then 0
    else
      var n := WordPrefix(s[1..]);
      assert s[..n + 1] == [s[0]] + s[1..][..n];
      n + 1
  }

  lemma {:induction false} WordPrefixAt(word: string, rest: string)
    requires NoSpace(word) && (rest == "" || IsSpace(rest[0]))
    ensures WordPrefix(word + rest) == |word|
  {
    if word == "" {
      assert word + rest == rest;
    } else {
      assert (word + rest)[1..] == word[1..] + rest;
      WordPrefixAt(word[1..], rest);
    }
  }

  // ---- searching ----

  /** indexOf: the first position of `pat` in `s`. */
  function IndexOf(s: string, pat: string): (r: Option<nat>)
    ensures r.Some? ==> r.value + |pat| <= |s| && s[r.value..r.value + |pat|] == pat
  {
    if pat <= s then Some(0)
    else if s == "" then None
    else match IndexOf(s[1..], pat)
      case None => None
      case Some(i) => Some(i + 1)
  }

  /** `pat` cannot start earlier than where its first character first occurs. */
  lemma {:induction false} IndexOfFirst(a: string, pat: string, b: string)
    requires pat != "" && pat[0] !in a
    ensures IndexOf(a + pat + b, pat) == Some(|a|)
  {
    var s := a + pat + b;
    if a == "" {
      assert s[..|pat|] == pat;
    } else {
      assert s[0] == a[0] && s[1..] == a[1..] + pat + b;
      IndexOfFirst(a[1..], pat, b);
    }
  }

  /** split(','), trim every part, drop the empty ones. */
  function Items(s: string): seq<string>
    decreases |s|
  {
    match IndexOf(s, ",")
    case None => Item(s)
    case Some(p) => Item(s[..p]) + Items(s[p + 1..])
  }

  function Item(s: string): seq<string> {
    if Trim(s) == "" then [] else [Trim(s)]
  }

  /** Every element followed by ", ". */
  function Listed(xs: seq<string>): string {
    if xs == [] then "" else Listed(xs[..|xs| - 1]) + xs[|xs| - 1] + ", "
  }

  predicate ListSafe(x: string) {
    x != "" && !IsSpace(x[0]) && !IsSpace(x[|x| - 1]) && ',' !in x && ']' !in x
  }

  lemma {:induction false} ListedHead(xs: seq<string>)
    requires xs != []
    ensures Listed(xs) == xs[0] + ", " + Listed(xs[1..])
    decreases |xs|
  {
    if |xs| == 1 {
      assert xs[..0] == [] && xs[1..] == [];
      assert Listed(xs) == "" + xs[0] + ", ";
    } else {
      var init, tail, last := xs[..|xs| - 1], xs[1..], xs[|xs| - 1];
      ListedHead(init);
      assert init[1..] == tail[..|tail| - 1] && init[0] == xs[0] && tail[|tail| - 1] == last;
      var head, middle := xs[0] + ", ", Listed(init[1..]);
      assert (head + middle) + last + ", " == head + (middle + last + ", ");
    }
  }

  lemma {:induction false} ListedHasNoBracket(xs: seq<string>)
    requires forall i :: 0 <= i < |xs| ==> ']' !in xs[i]
    ensures ']' !in Listed(xs)
  {
    if xs != [] { ListedHasNoBracket(xs[..|xs| - 1]); }
  }

  lemma TrimSafe(pad: string, x: string)
    requires (pad == "" || pad == " ") && ListSafe(x)
    ensures Trim(pad + x) == x && ',' !in pad + x
  {
    assert TrimStart(x) == x && TrimEnd(x) == x;
    if pad == " " {
      assert (pad + x)[1..] == x;
      assert TrimStart(pad + x) == TrimStart(x);
    } else {
      assert pad + x == x;
    }
  }

  lemma ItemsStep(pad: string, x: string, rest: string)
    requires (pad == "" || pad == " ") && ListSafe(x)
    ensures Items(pad + x + "," + rest) == [x] + Items(rest)
  {
    TrimSafe(pad, x);
    hide Trim, ListSafe;
    var s := pad + x + "," + rest;
    IndexOfFirst(pad + x, ",", rest);
    assert s[..|pad + x|] == pad + x && s[|pad + x| + 1..] == rest;
  }

  lemma NoItems(pad: string)
    requires pad == "" || pad == " "
    ensures Items(pad) == []
  {
    if pad == " " {
      assert pad[1..] == "";
      assert IndexOf("", ",") == None && TrimStart("") == "";
    }
  }

  /** Reading a printed list gives its elements back; `pad` is the blank left over by the last comma. */
  lemma {:induction false} ItemsOfListed(pad: string, xs: seq<string>)
    requires pad == "" || pad == " "
    requires forall i :: 0 <= i < |xs| ==> ListSafe(xs[i])
    ensures Items(pad + Listed(xs)) == xs
    decreases |xs|
  {
    hide Items, ListSafe;
    if xs == [] {
      NoItems(pad);
      assert pad + Listed(xs) == pad;
    } else {
      ListedHead(xs);
      ItemsStep(pad, xs[0], " " + Listed(xs[1..]));
      assert pad + Listed(xs) == pad + xs[0] + "," + (" " + Listed(xs[1..]));
      assert forall i :: 0 <= i < |xs[1..]| ==> xs[1..][i] == xs[i + 1];
      ItemsOfListed(" ", xs[1..]);
      assert xs == [xs[0]] + xs[1..];
    }
  }

  // ---- what the functions above are, by themselves ----

  /** The white space of ASCII. */
  lemma SpacesAre(c: char)
    ensures IsSpace(c) <==> c as nat in {9, 10, 11, 12, 13, 32}
  {
  }

  lemma {:induction false} TrimStartIs(s: string)
    ensures |TrimStart(s)| <= |s| && s == s[..|s| - |TrimStart(s)|] + TrimStart(s)
    ensures forall i :: 0 <= i < |s| - |TrimStart(s)| ==> IsSpace(s[i])
    ensures TrimStart(s) != "" ==> !IsSpace(TrimStart(s)[0])
  {
    hide IsSpace;
    if s != "" && IsSpace(s[0]) {
      TrimStartIs(s[1..]);
      var n := |s| - |TrimStart(s)|;
      assert s == [s[0]] + s[1..] && s[..n] == [s[0]] + s[1..][..n - 1];
      forall i | 0 <= i < n ensures IsSpace(s[i]) { assert i > 0 ==> s[i] == s[1..][i - 1]; }
    } else {
      assert s[..0] == "";
    }
  }

  lemma {:induction false} TrimEndIs(s: string)
    ensures |TrimEnd(s)| <= |s| && s[..|TrimEnd(s)|] == TrimEnd(s)
    ensures forall i :: |TrimEnd(s)| <= i < |s| ==> IsSpace(s[i])
    ensures TrimEnd(s) != "" ==> !IsSpace(TrimEnd(s)[|TrimEnd(s)| - 1])
  {
    hide IsSpace;
    if s != "" && IsSpace(s[|s| - 1]) {
      TrimEndIs(s[..|s| - 1]);
    } else {
      assert s[..|s|] == s;
    }
  }

  /** Trimming takes all white space off both ends and nothing else. */
  lemma TrimIs(s: string) returns (i: nat)
    ensures var t := Trim(s);
            && (t != "" ==> !IsSpace(t[0]) && !IsSpace(t[|t| - 1]))
            && i + |t| <= |s| && s[i..i + |t|] == t
            && (forall k :: 0 <= k < i ==> IsSpace(s[k])) && (forall k :: i + |t| <= k < |s| ==> IsSpace(s[k]))
  {
    TrimStartIs(s);
    var u, t := TrimStart(s), Trim(s);
    TrimEndIs(u);
    hide IsSpace, TrimStart, TrimEnd;
    i := |s| - |u|;
    assert s[i..] == u && s[i..i + |t|] == u[..|t|];
    assert t != "" ==> t[0] == u[0];
    forall k | i + |t| <= k < |s| ensures IsSpace(s[k]) { assert s[k] == u[k - i]; }
  }

  /** Digits are '0' to '9', and behind them the letters from 'a' on, written small and read either way. */
  lemma DigitsAre(d: nat)
    requires d < 16
    ensures DigitChar(d) == "0123456789abcdef"[d] && DigitValue(DigitChar(d)) == d
    ensures DigitValue("0123456789ABCDEF"[d]) == d
  {
  }

  /** A number may have a plus in front, and in hexadecimal "0x". */
  lemma PlusSigned(s: string, base: nat)
    requires base == 10 || base == 16
    ensures ParseInt("+" + s, base) == ParseUnsigned(s, base)
  {
    hide ParseUnsigned;
    assert ("+" + s)[1..] == s;
    assert TrimStart("+" + s) == "+" + s;
  }

  lemma HexSigned(s: string)
    requires s != "" && IsNumeral(s, 16)
    ensures ParseInt("0x" + s, 16) == Some(NumeralValue(s, 16))
  {
    AllDigits(s, 16);
    hide NumeralValue, IsNumeral, DigitsPrefix;
    var t := "0x" + s;
    assert t[0] == '0' && t[1] == 'x' && t[2..] == s && s[..|s|] == s;
    assert TrimStart(t) == t;
  }

  predicate StandsAt(s: string, pat: string, i: nat) {
    i + |pat| <= |s| && s[i..i + |pat|] == pat
  }

  lemma StandsFurther(s: string, pat: string, i: nat)
    requires s != "" && i > 0
    ensures StandsAt(s, pat, i) <==> StandsAt(s[1..], pat, i - 1)
  {
    if i + |pat| <= |s| { assert s[i..i + |pat|] == s[1..][i - 1..i - 1 + |pat|]; }
  }

  /** The first place where the pattern stands. */
  lemma {:induction false} IndexOfExactly(s: string, pat: string, i: nat)
    ensures IndexOf(s, pat) == Some(i) <==> StandsAt(s, pat, i) && forall j: nat | j < i :: !StandsAt(s, pat, j)
  {
    StandsFirst(s, pat);
    if pat <= s || s == "" {
      hide StandsAt;
    } else {
      IndexOfStep(s, pat);
      hide IndexOf, StandsAt;
      if i > 0 {
        IndexOfExactly(s[1..], pat, i - 1);
        NoneBefore(s, pat, i);
        StandsFurther(s, pat, i);
      }
    }
  }

  lemma StandsFirst(s: string, pat: string)
    ensures StandsAt(s, pat, 0) <==> pat <= s
    ensures s == "" && !(pat <= s) ==> forall i: nat :: !StandsAt(s, pat, i)
  {
  }

  lemma IndexOfStep(s: string, pat: string)
    requires !(pat <= s) && s != ""
    ensures IndexOf(s, pat) == match IndexOf(s[1..], pat) case None => None case Some(k) => Some(k + 1)
  {
  }

  lemma NoneBefore(s: string, pat: string, i: nat)
    requires s != "" && i > 0 && !StandsAt(s, pat, 0)
    ensures (forall j: nat | j < i :: !StandsAt(s, pat, j)) <==> forall j: nat | j < i - 1 :: !StandsAt(s[1..], pat, j)
  {
    forall j: nat | 0 < j < i ensures StandsAt(s, pat, j) <==> StandsAt(s[1..], pat, j - 1) {
      StandsFurther(s, pat, j);
    }
    hide StandsAt;
    assert forall j: nat | j < i - 1 :: StandsAt(s[1..], pat, j) <==> StandsAt(s, pat, j + 1);
  }

  /** A list of items is cut at every comma; each piece is trimmed, and dropped if nothing is left of it. */
  lemma ItemsAre(a: string, b: string)
    requires ',' !in a
    ensures Items(a) == if Trim(a) == "" then [] else [Trim(a)]
    ensures Items(a + "," + b) == Items(a) + Items(b)
  {
    NoComma(a);
    IndexOfFirst(a, ",", b);
    hide Trim, IndexOf;
    var s := a + "," + b;
    assert s[..|a|] == a && s[|a| + 1..] == b;
  }

  lemma {:induction false} NoComma(s: string)
    requires ',' !in s
    ensures IndexOf(s, ",") == None
  {
    if s != "" {
      assert s[0] in s && (s[0] == ',' || !("," <= s));
      NoComma(s[1..]);
    }
  }

  /** An unsigned number is as many digits as there are, whatever follows; without one it is NaN. */
  lemma UnsignedExactly(w: string, rest: string, base: nat)
    requires base == 10 || base == 16
    requires IsNumeral(w, base) && (rest == "" || DigitValue(rest[0]) >= base)
    requires base == 16 ==> !("0x" <= w + rest) && !("0X" <= w + rest)
    ensures ParseUnsigned(w + rest, base) == if w == "" then None else Some(NumeralValue(w, base))
    ensures base == 16 ==>
              ParseUnsigned("0x" + (w + rest), 16) == ParseUnsigned("0X" + (w + rest), 16) == ParseUnsigned(w + rest, 16)
  {
    var u := w + rest;
    PrefixOfDigits(w, rest, base);
    if base == 16 { HexPrefixed(u); }
    DigitsOf(u, base);
    hide DigitsPrefix, NumeralValue, IsNumeral, DigitValue, ParseUnsigned;
    assert u[..|w|] == w;
  }

  lemma DigitsOf(u: string, base: nat)
    requires base == 10 || (base == 16 && !("0x" <= u) && !("0X" <= u))
    ensures var n := DigitsPrefix(u, base);
            ParseUnsigned(u, base) == if n == 0 then None else Some(NumeralValue(u[..n], base))
  {
    hide DigitsPrefix, NumeralValue, IsNumeral;
    if |u| >= 2 && u[0] == '0' {
      assert u[1] == 'x' ==> "0x" <= u;
      assert u[1] == 'X' ==> "0X" <= u;
    }
  }

  lemma HexPrefixed(u: string)
    requires !("0x" <= u) && !("0X" <= u)
    ensures ParseUnsigned("0x" + u, 16) == ParseUnsigned("0X" + u, 16) == ParseUnsigned(u, 16)
  {
    DigitsOf(u, 16);
    hide DigitsPrefix, NumeralValue, IsNumeral;
    assert ("0x" + u)[2..] == u && ("0X" + u)[2..] == u;
  }

  lemma {:induction false} PrefixOfDigits(w: string, rest: string, base: nat)
    requires IsNumeral(w, base) && (rest == "" || DigitValue(rest[0]) >= base)
    ensures DigitsPrefix(w + rest, base) == |w|
  {
    if w == "" {
      assert w + rest == rest;
    } else {
      assert (w + rest)[1..] == w[1..] + rest;
      PrefixOfDigits(w[1..], rest, base);
    }
  }

  /** White space in front and a sign are read; to 32 bits the number is cut like any other, a negative one too. */
  lemma SignedExactly(gap: string, u: string, base: nat)
    requires base == 10 || base == 16
    requires (forall i :: 0 <= i < |gap| ==> IsSpace(gap[i])) && (u == "" || (!IsSpace(u[0]) && u[0] != '+' && u[0] != '-'))
    ensures ParseInt(gap + u, base) == ParseInt(gap + ("+" + u), base) == ParseUnsigned(u, base)
    ensures ParseInt(gap + ("-" + u), base) ==
            match ParseUnsigned(u, base) case None => None case Some(n) => Some(-n)
    ensures ParseUint32(gap + ("-" + u), base) ==
            match ParseUnsigned(u, base) case None => 0 case Some(n) => (-n) % TWO_32
  {
    TrimStartAt(gap, u);
    TrimStartAt(gap, "+" + u);
    TrimStartAt(gap, "-" + u);
    hide ParseUnsigned, TrimStart;
    assert ("+" + u)[1..] == u && ("-" + u)[1..] == u;
  }

  lemma {:induction false} TrimStartAt(gap: string, s: string)
    requires (forall i :: 0 <= i < |gap| ==> IsSpace(gap[i])) && (s == "" || !IsSpace(s[0]))
    ensures TrimStart(gap + s) == s
  {
    if gap == "" {
      assert gap + s == s;
    } else {
      assert (gap + s)[0] == gap[0] && (gap + s)[1..] == gap[1..] + s;
      TrimStartAt(gap[1..], s);
    }
  }
}
