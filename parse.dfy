/** The per-character JSON string escaper of src/parse.rs, following
    section 7 of RFC 8259, together with a decoder used as its partner:
    decoding what `Escape` produced gives back the original characters,
    which is how the model shows that escaping loses nothing. */
module Parse {

  datatype Option<T> = None | Some(value: T)

  /** The lower-case hexadecimal digit of `n`. */
  function HexDigit(n: nat): (d: char)
    requires n < 16
    ensures '0' <= d <= '9' || 'a' <= d <= 'f'
  {
    if n < 10 then ('0' as int + n) as char else ('a' as int + n - 10) as char
  }

  /** `format!("{:04x}", n)`: four lower-case hexadecimal digits, zero padded. */
  function Hex4(n: nat): (r: string)
    requires n < 0x1_0000
    ensures |r| == 4 && forall i :: 0 <= i < 4 ==> '0' <= r[i] <= '9' || 'a' <= r[i] <= 'f'
  {
    var n1 := n / 16;
    var n2 := n1 / 16;
    [HexDigit(n2 / 16), HexDigit(n2 % 16), HexDigit(n1 % 16), HexDigit(n % 16)]
  }

  /** `escape` (src/parse.rs:1-13): the text that stands for `c` inside a JSON string. */
  function Escape(c: char): string
  {
    match c
    case '"' => "\\\""
    case '\\' => "\\\\"
    case '\U{0008}' => "\\b"
    case '\U{000C}' => "\\f"
    case '\n' => "\\n"
    case '\r' => "\\r"
    case '\t' => "\\t"
    case _ => if c <= '\U{001F}' then "\\u" + Hex4(c as int) else [c]
  }

  // ----- the decoding partner -----

  /** The value of a hexadecimal digit of either case. */
  function HexValue(d: char): (r: Option<nat>)
    ensures r.Some? ==> r.value < 16
  {
    if '0' <= d <= '9' then Some(d as int - '0' as int)
    else if 'a' <= d <= 'f' then Some(d as int - 'a' as int + 10)
    else if 'A' <= d <= 'F' then Some(d as int - 'A' as int + 10)
    else None
  }

  /** The number written by four hexadecimal digits. */
  function Hex4Value(t: string): (r: Option<nat>)
    requires |t| == 4
    ensures r.Some? ==> r.value < 0x1_0000
  {
    match (HexValue(t[0]), HexValue(t[1]), HexValue(t[2]), HexValue(t[3]))
    case (Some(a), Some(b), Some(c), Some(d)) => Some(a * 0x1000 + b * 0x100 + c * 0x10 + d)
    case _ => None
  }

  /** Reads one character of JSON string content from the head of `t`,
      returning it with the number of characters it took up. */
  function DecodeOne(t: string): Option<(char, nat)>
  {
    if |t| == 0 then None
    else if t[0] != '\\' then
      if t[0] == '"' || t[0] <= '\U{001F}' then None else Some((t[0], 1))
    else if |t| < 2 then None
    else
      match t[1]
      case '"' => Some(('"', 2))
      case '\\' => Some(('\\', 2))
      case '/' => Some(('/', 2))
      case 'b' => Some(('\U{0008}', 2))
      case 'f' => Some(('\U{000C}', 2))
      case 'n' => Some(('\n', 2))
      case 'r' => Some(('\r', 2))
      case 't' => Some(('\t', 2))
      case 'u' =>
        if |t| < 6 then None
        else (match Hex4Value(t[2..6])
              case Some(n) =>
                if n < 0xD800 || 0xE000 <= n then Some((n as char, 6)) else None
              case None => None)
      case _ => None
  }

  /** The characters that the JSON string content `t` stands for. */
  function Unescape(t: string): Option<string>
    decreases |t|
  {
    if t == [] then Some([])
    else match DecodeOne(t)
      case Some((c, n)) =>
        if 0 < n <= |t| then
          match Unescape(t[n..])
          case Some(rest) => Some([c] + rest)
          case None => None
        else None
      case None => None
  }

  /** Escapes every character of `s` in order. */
  function EscapeAll(s: string): string
  {
    if s == [] then [] else Escape(s[0]) + EscapeAll(s[1..])
  }

  // ----- properties of Escape -----

  /** Two-character escapes take precedence over the `\u` arm; every other
      control character becomes `\u00` and two lower-case hex digits. */
  lemma EscapeControl(c: char)
    requires c <= '\U{001F}'
    ensures c == '\U{0008}' ==> Escape(c) == "\\b"
    ensures c == '\U{000C}' ==> Escape(c) == "\\f"
    ensures c == '\n' ==> Escape(c) == "\\n"
    ensures c == '\r' ==> Escape(c) == "\\r"
    ensures c == '\t' ==> Escape(c) == "\\t"
    ensures c !in {'\U{0008}', '\U{000C}', '\n', '\r', '\t'} ==>
              Escape(c) == "\\u00" + [HexDigit(c as int / 16), HexDigit(c as int % 16)]
  {
  }

  /** The shape of every escape: 1, 2 or 6 characters, a leading backslash
      exactly for `"`, `\` and the control characters, and no raw control
      character anywhere. */
  lemma EscapeShape(c: char)
    ensures |Escape(c)| in {1, 2, 6}
    ensures Escape(c)[0] == '\\' <==> (c == '"' || c == '\\' || c <= '\U{001F}')
    ensures |Escape(c)| == 1 <==> Escape(c) == [c]
    ensures forall i :: 0 <= i < |Escape(c)| ==> Escape(c)[i] > '\U{001F}'
  {
  }

  lemma HexDigitValue(n: nat)
    requires n < 16
    ensures HexValue(HexDigit(n)) == Some(n)
  {
  }

  lemma Hex4RoundTrip(n: nat)
    requires n < 0x1_0000
    ensures Hex4Value(Hex4(n)) == Some(n)
  {
    var n1 := n / 16;
    var n2 := n1 / 16;
    HexDigitValue(n2 / 16);
    HexDigitValue(n2 % 16);
    HexDigitValue(n1 % 16);
    HexDigitValue(n % 16);
    assert n == n2 / 16 * 0x1000 + n2 % 16 * 0x100 + n1 % 16 * 0x10 + n % 16;
  }

  /** Decoding the head of `Escape(c) + rest` yields `c` and consumes
      exactly the escape. */
  lemma DecodeEscape(c: char, rest: string)
    ensures DecodeOne(Escape(c) + rest) == Some((c, |Escape(c)|))
  {
    var t := Escape(c) + rest;
    if c <= '\U{001F}' && c !in {'\U{0008}', '\U{000C}', '\n', '\r', '\t'} {
      assert Escape(c) == "\\u" + Hex4(c as int);
      assert t[2..6] == Hex4(c as int);
      Hex4RoundTrip(c as int);
    }
  }

  lemma EscapeAllAppend(a: string, b: string)
    ensures EscapeAll(a + b) == EscapeAll(a) + EscapeAll(b)
  {
    if a == [] {
      assert a + b == b;
    } else {
      assert (a + b)[1..] == a[1..] + b;
      EscapeAllAppend(a[1..], b);
    }
  }

  /** Unescaping the escaped text of a string gives back the string. */
  lemma {:induction false} UnescapeEscapeAll(s: string)
    ensures Unescape(EscapeAll(s)) == Some(s)
  {
    if s != [] {
      var t := EscapeAll(s);
      var e := Escape(s[0]);
      EscapeShape(s[0]);
      DecodeEscape(s[0], EscapeAll(s[1..]));
      assert t[|e|..] == EscapeAll(s[1..]);
      UnescapeEscapeAll(s[1..]);
      assert [s[0]] + s[1..] == s;
    }
  }

  /** `escape` is injective, and so is escaping a whole string: the escaped
      text determines the characters it came from. */
  lemma EscapeInjective(a: char, b: char)
    ensures Escape(a) == Escape(b) ==> a == b
  {
    DecodeEscape(a, []);
    DecodeEscape(b, []);
    assert Escape(a) + [] == Escape(a);
    assert Escape(b) + [] == Escape(b);
  }

  lemma EscapeAllInjective(s: string, t: string)
    ensures EscapeAll(s) == EscapeAll(t) ==> s == t
  {
    UnescapeEscapeAll(s);
    UnescapeEscapeAll(t);
  }
}
