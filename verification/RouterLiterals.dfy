/**
 RouterOS string literals (internal/lab/registry.go, internal/lab/provision.go):
 two escapers and the scripts written with them. A reader of literals is the
 reference: it is proved to read back exactly what either escaper was given, so
 a script parses back to its values and to nothing else.
*/
module LiteralSpec {
  import opened Words

  /** Text whose characters are bytes. */
  ghost predicate Bytes(s: string) {
    forall i :: 0 <= i < |s| ==> s[i] as int < 256
  }

  predicate Alphanumeric(c: char) {
    'a' <= c <= 'z' || 'A' <= c <= 'Z' || '0' <= c <= '9'
  }

  /** A hexadecimal digit, upper case. */
  function Hex(n: nat): (c: char)
    requires n < 16
    ensures '0' <= c <= '9' || 'A' <= c <= 'F'
  {
    if n < 10 then '0' + n as char else 'A' + (n - 10) as char
  }

  function HexValue(c: char): Option<nat> {
    if '0' <= c <= '9' then Some(c as nat - '0' as nat)
    else if 'A' <= c <= 'F' then Some(c as nat - 'A' as nat + 10)
    else None
  }

  /** One byte as a letter, a digit, or a backslash and two hexadecimal digits. */
  function EscapedByte(c: char): string
    requires c as int < 256
  {
    if Alphanumeric(c) then [c] else ['\\', Hex(c as nat / 16), Hex(c as nat % 16)]
  }

  /** One byte as it is, or with a backslash when it means something inside a literal. */
  function QuotedByte(c: char): string {
    if c == '\\' || c == '"' || c == '$' then ['\\', c] else [c]
  }

  // ---- the reader

  /** What stands at the start of a literal's body: a byte and how many characters it takes, or the end, or nonsense. */
  datatype Token = Byte(c: char, size: nat) | End | Bad

  function TokenOf(t: string): Token {
    if t == "" || t[0] == '$' then Bad // a bare dollar sign would read a variable
    else if t[0] == '"' then End
    else if t[0] != '\\' then Byte(t[0], 1)
    else if |t| < 2 then Bad
    else if t[1] == '\\' || t[1] == '"' || t[1] == '$' then Byte(t[1], 2)
    else if |t| < 3 || HexValue(t[1]).None? || HexValue(t[2]).None? then Bad
    else Byte((HexValue(t[1]).value * 16 + HexValue(t[2]).value) as char, 3)
  }

  /** The value of a literal's body up to its closing quote, and what follows the quote. */
  datatype Read = Read(value: string, rest: string)

  function ReadBody(t: string): Option<Read>
    decreases |t|
  {
    match TokenOf(t)
    case Bad => None
    case End => Some(Read("", t[1..]))
    case Byte(c, size) =>
      var r := ReadBody(t[size..]);
      if r.None? then None else Some(Read([c] + r.value.value, r.value.rest))
  }

  /** A literal, and what follows it. */
  function ReadLiteral(t: string): Option<Read> {
    if t == "" || t[0] != '"' then None else ReadBody(t[1..])
  }

  // ---- the escapers

  /** The two ways of writing a literal. */
  datatype Style = Hexadecimal | Backslashes

  function Escape(style: Style, c: char): string
    requires style.Hexadecimal? ==> c as int < 256
  {
    if style.Hexadecimal? then EscapedByte(c) else QuotedByte(c)
  }

  function Body(style: Style, s: string): string
    requires Bytes(s)
  {
    if s == "" then "" else Escape(style, s[0]) + Body(style, s[1..])
  }

  function Literal(style: Style, s: string): string
    requires Bytes(s)
  {
    "\"" + (Body(style, s) + "\"")
  }

  lemma HexReads(n: nat)
    requires n < 16
    ensures HexValue(Hex(n)) == Some(n)
  {}

  /** Either way, one byte escaped is read as that byte, whatever follows it. */
  lemma ByteReads(style: Style, c: char, t: string)
    requires c as int < 256
    ensures TokenOf(Escape(style, c) + t) == Byte(c, |Escape(style, c)|)
    ensures (Escape(style, c) + t)[|Escape(style, c)|..] == t
  {
    HexReads(c as nat / 16);
    HexReads(c as nat % 16);
  }

  /** One token read off the front of a body. */
  lemma TokenReads(t: string, c: char, size: nat, tail: string, r: Read)
    requires TokenOf(t) == Byte(c, size) && t[size..] == tail && ReadBody(tail) == Some(r)
    ensures ReadBody(t) == Some(Read([c] + r.value, r.rest))
  {}

  /** Reading undoes escaping, for every byte string, and stops exactly at the closing quote. */
  lemma {:induction false} BodyReads(style: Style, s: string, rest: string)
    requires Bytes(s)
    ensures ReadBody(Body(style, s) + ("\"" + rest)) == Some(Read(s, rest))
  {
    if s == "" {
      EndReads(rest);
      assert Body(style, s) + ("\"" + rest) == "\"" + rest;
    } else {
      BodyReads(style, s[1..], rest);
      OneMoreReads(style, s, Body(style, s[1..]), "\"" + rest, rest);
    }
  }

  lemma OneMoreReads(style: Style, s: string, body: string, end: string, rest: string)
    requires Bytes(s) && s != "" && body == Body(style, s[1..])
    requires ReadBody(body + end) == Some(Read(s[1..], rest))
    ensures ReadBody(Body(style, s) + end) == Some(Read(s, rest))
  {
    var head := Escape(style, s[0]);
    ByteReads(style, s[0], body + end);
    HeadReads(head, body + end, s[0], s[1..], rest);
    BodyText(style, s, body);
    Joined(head, body, end);
    FirstAndRest(s);
  }

  lemma FirstAndRest(s: string)
    requires s != ""
    ensures s == [s[0]] + s[1..]
  {}

  lemma HeadReads(head: string, tail: string, c: char, value: string, rest: string)
    requires TokenOf(head + tail) == Byte(c, |head|) && (head + tail)[|head|..] == tail
    requires ReadBody(tail) == Some(Read(value, rest))
    ensures ReadBody(head + tail) == Some(Read([c] + value, rest))
  {
    TokenReads(head + tail, c, |head|, tail, Read(value, rest));
  }

  lemma BodyText(style: Style, s: string, body: string)
    requires Bytes(s) && s != "" && body == Body(style, s[1..])
    ensures Body(style, s) == Escape(style, s[0]) + body
  {}

  lemma Joined(a: string, b: string, c: string)
    ensures (a + b) + c == a + (b + c)
  {}

  lemma EndReads(rest: string)
    ensures ReadBody("\"" + rest) == Some(Read("", rest))
  {
    assert ("\"" + rest)[1..] == rest;
  }

  lemma LiteralReads(style: Style, s: string, rest: string)
    requires Bytes(s)
    ensures ReadLiteral(Literal(style, s) + rest) == Some(Read(s, rest))
  {
    BodyReads(style, s, rest);
    QuotedReads(Body(style, s), rest, Some(Read(s, rest)));
  }

  lemma QuotedReads(body: string, rest: string, r: Option<Read>)
    requires ReadBody(body + ("\"" + rest)) == r
    ensures ReadLiteral(("\"" + (body + "\"")) + rest) == r
  {
    Opened(body, rest);
  }

  lemma Opened(body: string, rest: string)
    ensures var t := ("\"" + (body + "\"")) + rest; t[0] == '"' && t[1..] == body + ("\"" + rest)
  {}

  /** In the hexadecimal way nothing but letters, digits and backslashes stands between the quotes. */
  lemma {:induction false} HexadecimalIsPlain(s: string, k: nat)
    requires Bytes(s) && k < |Body(Hexadecimal, s)|
    ensures Alphanumeric(Body(Hexadecimal, s)[k]) || Body(Hexadecimal, s)[k] == '\\'
  {
    var n := |EscapedByte(s[0])|;
    if k >= n { HexadecimalIsPlain(s[1..], k - n); }
  }

  const DIGITS := "0123456789ABCDEF"

  /**
   What each way makes of a byte: the hexadecimal one keeps letters and digits, the
   other all but three characters.
  */
  lemma EscapedIs(c: char)
    requires c as int < 256
    ensures Escape(Hexadecimal, c) == if 'a' <= c <= 'z' || 'A' <= c <= 'Z' || '0' <= c <= '9' then [c]
                                      else ['\\', DIGITS[c as int / 16], DIGITS[c as int % 16]]
    ensures Escape(Backslashes, c) == if c in ['\\', '"', '$'] then ['\\', c] else [c]
  {
    HexIs(c as nat / 16);
    HexIs(c as nat % 16);
  }

  lemma HexIs(n: nat)
    requires n < 16
    ensures Hex(n) == DIGITS[n]
  {}

  // ---- scripts

  ghost predicate AllBytes(values: seq<string>) {
    forall i :: 0 <= i < |values| ==> Bytes(values[i])
  }

  /** A script: words, each followed by a value as a literal, and a last line ending. */
  function Script(style: Style, words: seq<string>, values: seq<string>, tail: string): string
    requires |words| == |values| && AllBytes(values)
  {
    if words == [] then tail
    else
      assert Bytes(values[0]);
      words[0] + (Literal(style, values[0]) + Script(style, words[1..], values[1..], tail))
  }

  /** What follows the word, when the text starts with it. */
  function Expect(word: string, t: string): Option<string> {
    if |word| <= |t| && t[..|word|] == word then Some(t[|word|..]) else None
  }

  /** The values of a script with these words. */
  function ReadScript(words: seq<string>, tail: string, t: string): Option<seq<string>> {
    if words == [] then (if t == tail then Some([]) else None)
    else
      var after := Expect(words[0], t);
      if after.None? then None
      else
        var lit := ReadLiteral(after.value);
        if lit.None? then None
        else
          var more := ReadScript(words[1..], tail, lit.value.rest);
          if more.None? then None else Some([lit.value.value] + more.value)
  }

  lemma WordReads(word: string, t: string)
    ensures Expect(word, word + t) == Some(t)
  {}

  /** A script parses back to exactly the values it was written with. */
  lemma {:induction false} ScriptReads(style: Style, words: seq<string>, values: seq<string>, tail: string)
    requires |words| == |values| && AllBytes(values)
    ensures ReadScript(words, tail, Script(style, words, values, tail)) == Some(values)
  {
    if words != [] {
      assert Bytes(values[0]);
      var rest := Script(style, words[1..], values[1..], tail);
      ScriptReads(style, words[1..], values[1..], tail);
      LiteralReads(style, values[0], rest);
      WordReads(words[0], Literal(style, values[0]) + rest);
      assert values == [values[0]] + values[1..];
    }
  }

  /** So no two lists of values give the same script. */
  lemma ScriptsDiffer(style: Style, words: seq<string>, a: seq<string>, b: seq<string>, tail: string)
    requires |words| == |a| == |b| && AllBytes(a) && AllBytes(b)
    ensures Script(style, words, a, tail) == Script(style, words, b, tail) ==> a == b
  {
    ScriptReads(style, words, a, tail);
    ScriptReads(style, words, b, tail);
  }
}

module RouterLiterals {
  import opened Words
  import opened LiteralSpec

  const REGISTRY_WORDS := ["/container/config/set registry-url=", " username=", " password="]
  const ACCESS_WORDS := ["/user/ssh-keys/add user=admin key=", "\n/user/set [find name=admin] password="]

  datatype Registry = Registry(url: string, user: string, token: string)

  /** A literal in which every byte that is not a letter or a digit is written in hexadecimal. */
  method RouterOSEscaped(s: string) returns (b: string)
    requires Bytes(s)
    ensures b == Literal(Hexadecimal, s)
  {
    b := "\"";
    assert s[0..] == s;
    for i := 0 to |s|
      invariant b + (Body(Hexadecimal, s[i..]) + "\"") == Literal(Hexadecimal, s)
    {
      var part := EscapedByte(s[i]);
      Unescape(s, i);
      Regroup(b, part, Body(Hexadecimal, s[i + 1..]) + "\"");
      b := b + part;
    }
    assert Body(Hexadecimal, s[|s|..]) + "\"" == "\"";
    b := b + "\"";
  }

  lemma Unescape(s: string, i: nat)
    requires Bytes(s) && i < |s|
    ensures Body(Hexadecimal, s[i..]) + "\"" == EscapedByte(s[i]) + (Body(Hexadecimal, s[i + 1..]) + "\"")
  {
    assert s[i..][0] == s[i] && s[i..][1..] == s[i + 1..];
  }

  lemma Regroup(a: string, b: string, c: string)
    ensures a + (b + c) == (a + b) + c
  {}

  function RegistryScript(r: Registry): string
    requires Bytes(r.url) && Bytes(r.user) && Bytes(r.token)
  {
    Script(Hexadecimal, REGISTRY_WORDS, [r.url, r.user, r.token], "\n")
  }

  function AccessScript(publicKey: string, password: string): string
    requires Bytes(publicKey) && Bytes(password)
  {
    Script(Backslashes, ACCESS_WORDS, [publicKey, password], "\n")
  }

  /** The registry script gives the router exactly the credential's three parts. */
  lemma RegistryScriptReads(r: Registry)
    requires Bytes(r.url) && Bytes(r.user) && Bytes(r.token)
    ensures ReadScript(REGISTRY_WORDS, "\n", RegistryScript(r)) == Some([r.url, r.user, r.token])
  {
    ScriptReads(Hexadecimal, REGISTRY_WORDS, [r.url, r.user, r.token], "\n");
  }

  /** The access script gives it exactly the key and the password. */
  lemma AccessScriptReads(publicKey: string, password: string)
    requires Bytes(publicKey) && Bytes(password)
    ensures ReadScript(ACCESS_WORDS, "\n", AccessScript(publicKey, password)) == Some([publicKey, password])
  {
    ScriptReads(Backslashes, ACCESS_WORDS, [publicKey, password], "\n");
  }
}
