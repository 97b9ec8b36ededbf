/** Escape sequences in the text a key binding sends. */
module Escapes {
  import opened Options

  // ---- Hexadecimal numbers ----

  function Digit(c: char): Option<nat> {
    if '0' <= c <= '9' then Some(c as int - '0' as int)
    else if 'a' <= c <= 'f' then Some(c as int - 'a' as int + 10)
    else if 'A' <= c <= 'F' then Some(c as int - 'A' as int + 10)
    else None
  }

  function Digits(s: string): Option<nat> {
    if s == [] then Some(0)
    else
      var high, low := Digits(s[..|s| - 1]), Digit(s[|s| - 1]);
      if high.None? || low.None? then None else Some(16 * high.value + low.value)
  }

  /** A number in base sixteen, after one optional plus sign. */
  function Number(s: string): Option<nat> {
    if s == [] || s == "+" then None
    else if s[0] == '+' then Digits(s[1..])
    else Digits(s)
  }

  /** The character of a number: surrogates and what lies beyond U+10FFFF have
      none. */
  function Scalar(n: nat): (c: Option<char>)
    ensures c.Some? <==> n < 0xd800 || 0xe000 <= n < 0x11_0000
    ensures c.Some? ==> c.value as int == n
  {
    if n < 0xd800 || 0xe000 <= n < 0x11_0000 then Some(n as char) else None
  }

  // ---- Decoding ----

  function Take(s: string, n: nat): string {
    if |s| < n then s else s[..n]
  }

  function Drop(s: string, n: nat): (r: string)
    ensures |r| <= |s|
  {
    if |s| < n then [] else s[n..]
  }

  /** The one-letter escapes. */
  function Named(c: char): Option<char> {
    match c
    case 'n' => Some('\n')
    case 'r' => Some('\r')
    case 't' => Some('\t')
    case '0' => Some('\0')
    case '\\' => Some('\\')
    case '"' => Some('"')
    case 'e' => Some('\U{1b}')
    case _ => None
  }

  /** How many digits a numeric escape takes. */
  function Width(c: char): nat {
    if c == 'x' then 2 else if c == 'u' then 4 else 0
  }

  /** The character digits stand for; none if they do not parse. */
  function Coded(digits: string): string {
    var n := Number(digits);
    if n.None? then []
    else
      var c := Scalar(n.value);
      if c.None? then [] else [c.value]
  }

  function Decode(s: string): string
    decreases |s|
  {
    if s == [] then []
    else if s[0] != '\\' then [s[0]] + Decode(s[1..])
    else
      var (text, rest) := Escape(s[1..]);
      text + Decode(rest)
  }

  /** What follows a backslash: the text it stands for, and the remainder. */
  function Escape(s: string): (r: (string, string))
    ensures |r.1| <= |s|
  {
    if s == [] then ("\\", [])
    else if Named(s[0]).Some? then ([Named(s[0]).value], s[1..])
    else if Width(s[0]) > 0 then (Coded(Take(s[1..], Width(s[0]))), Drop(s[1..], Width(s[0])))
    else (['\\', s[0]], s[1..])
  }

  method TakeEscape(s: string) returns (text: string, rest: string)
    ensures (text, rest) == Escape(s)
  {
    if s == [] {
      return "\\", [];
    }
    var kind := s[0];
    rest := s[1..];
    if Named(kind).Some? {
      text := [Named(kind).value];
    } else if kind == 'x' || kind == 'u' {
      var digits := Take(rest, Width(kind));
      rest := Drop(rest, Width(kind));
      text := [];
      var n := Number(digits);
      if n.Some? {
        var c := Scalar(n.value);
        if c.Some? {
          text := [c.value];
        }
      }
    } else {
      text := ['\\', kind];
    }
  }

  /** One pass over the characters, taking escapes as they come. */
  method Unescape(s: string) returns (out: string)
    ensures out == Decode(s)
  {
    out := [];
    var rest := s;
    while rest != []
      invariant Decode(s) == out + Decode(rest)
      decreases |rest|
    {
      var c := rest[0];
      var text := [c];
      rest := rest[1..];
      if c == '\\' {
        text, rest := TakeEscape(rest);
      }
      out := out + text;
    }
  }

  // ---- Spelling ----

  /** The letter of a short escape, and its character. */
  ghost predicate IsShort(letter: char, c: char) {
    || (letter, c) == ('n', '\n') || (letter, c) == ('r', '\r') || (letter, c) == ('t', '\t')
    || (letter, c) == ('0', '\U{0}') || (letter, c) == ('e', '\U{1b}')
    || (letter, c) == ('\\', '\\') || (letter, c) == ('"', '"')
  }

  /** A text that stands for one character. */
  ghost predicate Spells(text: string, c: char) {
    || (text == [c] && c != '\\')
    || (|text| == 2 && text[0] == '\\' && IsShort(text[1], c))
    || (|text| == 4 && text[..2] == "\\x" && Number(text[2..]) == Some(c as int))
    || (|text| == 6 && text[..2] == "\\u" && Number(text[2..]) == Some(c as int))
  }

  ghost predicate Spelling(texts: seq<string>, s: string) {
    |texts| == |s| && forall i :: 0 <= i < |s| ==> Spells(texts[i], s[i])
  }

  function Flattened(texts: seq<string>): string {
    if texts == [] then [] else texts[0] + Flattened(texts[1..])
  }

  lemma SpelledFirst(text: string, c: char, rest: string)
    requires Spells(text, c)
    ensures Decode(text + rest) == [c] + Decode(rest)
  {
    var s := text + rest;
    if |text| == 1 {
      assert s[1..] == rest;
    } else if |text| == 2 {
      assert s[1..][1..] == rest;
    } else {
      CodedSpelledFirst(text, c, rest);
    }
  }

  lemma CodedSpelledFirst(text: string, c: char, rest: string)
    requires (|text| == 4 && text[..2] == "\\x") || (|text| == 6 && text[..2] == "\\u")
    requires Number(text[2..]) == Some(c as int)
    ensures Decode(text + rest) == [c] + Decode(rest)
  {
    var s, width := text + rest, |text| - 2;
    assert s[1] == text[..2][1] && s[0] == text[..2][0];
    var digits := s[1..][1..];
    assert Take(digits, width) == text[2..] && Drop(digits, width) == rest;
    assert Scalar(c as int) == Some(c);
  }

  /** Whatever spelling is chosen for each character, decoding gives the string
      back. */
  lemma {:induction false} DecodeUndoesSpelling(texts: seq<string>, s: string)
    requires Spelling(texts, s)
    ensures Decode(Flattened(texts)) == s
  {
    if s != [] {
      DecodeUndoesSpelling(texts[1..], s[1..]);
      SpelledFirst(texts[0], s[0], Flattened(texts[1..]));
    }
  }

  // ---- Which spellings there are ----

  function DigitOf(n: nat, upper: bool): char
    requires n < 16
  {
    if n < 10 then '0' + n as char
    else (if upper then 'A' else 'a') + (n - 10) as char
  }

  /** n in the given number of digits, each in the case asked for. */
  function Written(n: nat, upper: seq<bool>): string {
    if upper == [] then []
    else Written(n / 16, upper[..|upper| - 1]) + [DigitOf(n % 16, upper[|upper| - 1])]
  }

  function Limit(digits: nat): nat {
    if digits == 0 then 1 else 16 * Limit(digits - 1)
  }

  lemma {:induction false} WrittenReads(n: nat, upper: seq<bool>)
    requires n < Limit(|upper|)
    ensures |Written(n, upper)| == |upper|
    ensures Digits(Written(n, upper)) == Some(n)
    ensures '+' !in Written(n, upper)
  {
    if upper != [] {
      var most := upper[..|upper| - 1];
      WrittenReads(n / 16, most);
      OneDigitMore(n, Written(n / 16, most), upper[|upper| - 1]);
    }
  }

  lemma OneDigitMore(n: nat, front: string, upper: bool)
    requires Digits(front) == Some(n / 16) && '+' !in front
    ensures Digits(front + [DigitOf(n % 16, upper)]) == Some(n) && '+' !in front + [DigitOf(n % 16, upper)]
  {
    var s := front + [DigitOf(n % 16, upper)];
    assert s[..|s| - 1] == front;
  }

  lemma NumberOfWritten(n: nat, upper: seq<bool>)
    requires upper != [] && n < Limit(|upper|)
    ensures Number(Written(n, upper)) == Some(n)
  {
    WrittenReads(n, upper);
    var s := Written(n, upper);
    assert s[0] in s;
  }

  /** Every character but the backslash can stand for itself, the backslash is
      doubled, two digits spell up to U+00FF and four any below U+10000. */
  lemma EveryCharacterHasSpellings(c: char, two: seq<bool>, four: seq<bool>)
    requires |two| == 2 && |four| == 4
    ensures if c == '\\' then Spells("\\\\", c) else Spells([c], c)
    ensures c as int <= 0xff ==> Spells("\\x" + Written(c as int, two), c)
    ensures c as int <= 0xffff ==> Spells("\\u" + Written(c as int, four), c)
  {
    PlainSpells(c);
    Limits();
    if c as int < Limit(2) {
      HexSpells(c, "\\x", two);
    }
    if c as int < Limit(4) {
      HexSpells(c, "\\u", four);
    }
  }

  lemma PlainSpells(c: char)
    ensures if c == '\\' then Spells("\\\\", c) else Spells([c], c)
  {
  }

  lemma Limits()
    ensures Limit(2) == 0x100 && Limit(4) == 0x1_0000
  {
    assert Limit(1) == 16 && Limit(3) == 0x1000;
  }

  lemma HexSpells(c: char, prefix: string, upper: seq<bool>)
    requires (prefix == "\\x" && |upper| == 2) || (prefix == "\\u" && |upper| == 4)
    requires c as int < Limit(|upper|)
    ensures Spells(prefix + Written(c as int, upper), c)
  {
    WrittenReads(c as int, upper);
    NumberOfWritten(c as int, upper);
    SpellsAsNumber(c, prefix, Written(c as int, upper));
  }

  lemma SpellsAsNumber(c: char, prefix: string, digits: string)
    requires (prefix == "\\x" && |digits| == 2) || (prefix == "\\u" && |digits| == 4)
    requires Number(digits) == Some(c as int)
    ensures Spells(prefix + digits, c)
  {
    assert (prefix + digits)[..2] == prefix && (prefix + digits)[2..] == digits;
  }

  // ---- What decoding leaves alone ----

  lemma {:induction false} PlainTextIsKept(s: string)
    requires '\\' !in s
    ensures Decode(s) == s
  {
    if s != [] {
      assert s[0] in s;
      PlainTextIsKept(s[1..]);
    }
  }

  predicate AllHex(s: string) {
    forall i :: 0 <= i < |s| ==> Digit(s[i]).Some?
  }

  lemma {:induction false} DigitsExactlyWhen(s: string)
    ensures Digits(s).Some? <==> AllHex(s)
  {
    if s != [] {
      DigitsExactlyWhen(s[..|s| - 1]);
    }
  }

  /** A number is hex digits, at least one, after at most one plus sign. */
  lemma NumberExactlyWhen(s: string)
    ensures Number(s).Some? <==>
      (s != [] && AllHex(s)) || (|s| > 1 && s[0] == '+' && AllHex(s[1..]))
  {
    DigitsExactlyWhen(s);
    if s != [] {
      DigitsExactlyWhen(s[1..]);
    }
  }

  /** An escape that names nothing stays as it is, and so does a backslash at
      the end. */
  lemma UnknownEscapesStay(c: char, rest: string)
    requires c !in {'n', 'r', 't', '0', 'e', '\\', '"', 'x', 'u'}
    ensures Decode(['\\', c] + rest) == ['\\', c] + Decode(rest)
    ensures Decode("\\") == "\\"
  {
    var s := ['\\', c] + rest;
    assert s[1..][1..] == rest;
  }

  /** A numeric escape takes two digits or four, or those left when the text ends,
      and yields one character, or vanishes: when they are no number, or one that is
      no character, as surrogates are. */
  lemma NumericEscapes(c: char, digits: string, rest: string)
    requires c == 'x' || c == 'u'
    requires var width := if c == 'x' then 2 else 4; |digits| == width || (|digits| < width && rest == [])
    ensures var n := Number(digits);
      Decode(['\\', c] + digits + rest)
      == (if n.Some? && (n.value < 0xd800 || 0xe000 <= n.value < 0x1_0000) then [n.value as char] else []) + Decode(rest)
  {
    var s := ['\\', c] + digits + rest;
    assert s[1..][1..] == digits + rest;
    TakesTheDigits(digits, rest, if c == 'x' then 2 else 4);
    if Number(digits).Some? {
      var significant := if digits[0] == '+' then digits[1..] else digits;
      DigitsFit(significant);
      FewDigits(|significant|);
    }
  }

  lemma TakesTheDigits(digits: string, rest: string, width: nat)
    requires |digits| == width || (|digits| < width && rest == [])
    ensures Take(digits + rest, width) == digits && Drop(digits + rest, width) == rest
  {
  }

  lemma FewDigits(n: nat)
    requires n <= 4
    ensures Limit(n) <= 0x1_0000
  {
    assert Limit(0) == 1 && Limit(1) == 16 && Limit(2) == 0x100 && Limit(3) == 0x1000;
  }

  lemma EscapeShortens(s: string)
    ensures var (text, rest) := Escape(s);
      |text| + |rest| <= |s| + 1 && (|text| + |rest| == |s| + 1 ==> text + rest == ['\\'] + s)
  {
  }

  /** Decoding never lengthens a text, and keeps its length only when it changes
      nothing. */
  lemma {:induction false} DecodeShortens(s: string)
    ensures |Decode(s)| <= |s|
    ensures |Decode(s)| == |s| <==> Decode(s) == s
    decreases |s|
  {
    if s != [] && s[0] != '\\' {
      DecodeShortens(s[1..]);
    } else if s != [] {
      EscapeShortens(s[1..]);
      var (text, rest) := Escape(s[1..]);
      DecodeShortens(rest);
      if |text| + |rest| == |s| {
        assert s == text + rest;
        assert |Decode(s)| == |s| ==> Decode(rest) == rest;
        if Decode(s) == s {
          assert Decode(s)[|text|..] == Decode(rest);
        }
      }
    }
  }

  // ---- Room for the result ----

  /** Bytes a character takes in UTF-8. */
  function Utf8Size(c: char): nat {
    if c as int < 0x80 then 1 else if c as int < 0x800 then 2 else if c as int < 0x1_0000 then 3 else 4
  }

  function Bytes(s: string): nat {
    if s == [] then 0 else Utf8Size(s[0]) + Bytes(s[1..])
  }

  lemma {:induction false} BytesConcat(s: string, t: string)
    ensures Bytes(s + t) == Bytes(s) + Bytes(t)
    ensures |s| <= Bytes(s)
  {
    if s == [] {
      assert s + t == t;
    } else {
      BytesConcat(s[1..], t);
      assert (s + t)[1..] == s[1..] + t;
    }
  }

  lemma {:induction false} DigitsFit(s: string)
    requires Digits(s).Some?
    ensures Digits(s).value < Limit(|s|)
  {
    if s != [] {
      DigitsFit(s[..|s| - 1]);
    }
  }

  lemma CodedFits(digits: string)
    requires |digits| <= 4
    ensures Bytes(Coded(digits)) <= if digits == [] then 0 else 3
  {
    if Number(digits).Some? {
      Limits();
      assert Limit(0) == 1 && Limit(1) == 16 && Limit(3) == 0x1000;
      DigitsFit(if digits[0] == '+' then digits[1..] else digits);
    }
  }

  lemma BytesOfOne(c: char)
    ensures Bytes([c]) == Utf8Size(c)
  {
    assert [c][1..] == [];
  }

  lemma EscapeFits(s: string)
    ensures var (text, rest) := Escape(s);
      Bytes(text) + Bytes(rest) <= 1 + Bytes(s)
  {
    if s == [] {
      BytesOfOne('\\');
    } else if Named(s[0]).Some? {
      NamedEscapeFits(s);
    } else if Width(s[0]) > 0 {
      CodedEscapeFits(s);
    } else {
      UnknownEscapeFits(s);
    }
  }

  lemma NamedEscapeFits(s: string)
    requires s != [] && Named(s[0]).Some?
    ensures var (text, rest) := Escape(s);
      Bytes(text) + Bytes(rest) <= 1 + Bytes(s)
  {
    BytesOfOne(Named(s[0]).value);
    assert Utf8Size(Named(s[0]).value) == 1;
  }

  lemma UnknownEscapeFits(s: string)
    requires s != [] && Named(s[0]).None? && Width(s[0]) == 0
    ensures var (text, rest) := Escape(s);
      Bytes(text) + Bytes(rest) <= 1 + Bytes(s)
  {
    BytesOfOne('\\');
    BytesConcat("\\", [s[0]]);
    BytesOfOne(s[0]);
  }

  lemma CodedEscapeFits(s: string)
    requires s != [] && Named(s[0]).None? && Width(s[0]) > 0
    ensures var (text, rest) := Escape(s);
      Bytes(text) + Bytes(rest) <= 1 + Bytes(s)
  {
    var digits, rest := Take(s[1..], Width(s[0])), Drop(s[1..], Width(s[0]));
    assert s[1..] == digits + rest;
    BytesConcat(digits, rest);
    CodedFits(digits);
  }

  /** The room reserved up front, the input's size, is always enough. */
  lemma {:induction false} DecodeFits(s: string)
    ensures Bytes(Decode(s)) <= Bytes(s)
    decreases |s|
  {
    if s != [] && s[0] != '\\' {
      DecodeFits(s[1..]);
      BytesConcat([s[0]], Decode(s[1..]));
    } else if s != [] {
      EscapeFits(s[1..]);
      var (text, rest) := Escape(s[1..]);
      DecodeFits(rest);
      BytesConcat(text, Decode(rest));
    }
  }
}
