/** JSON Pointers (RFC 6901) as the repository writes them in src/core/yaml.rs and
    src/core/export.rs, decodes them in src/core/parameter_source.rs, and looks
    them up through serde_json. */
module Pointers {
  import opened Json
  import opened Wrappers

  // ----- one token -----

  /** str::replace with a one-character pattern. */
  function ReplaceChar(s: string, c: char, into: string): string {
    if s == [] then []
    else (if s[0] == c then into else [s[0]]) + ReplaceChar(s[1..], c, into)
  }

  /** str::replace with a two-character pattern, from left to right. */
  function ReplacePair(s: string, a: char, b: char, into: char): string {
    if |s| < 2 then s
    else if s[0] == a && s[1] == b then [into] + ReplacePair(s[2..], a, b, into)
    else [s[0]] + ReplacePair(s[1..], a, b, into)
  }

  function Escape(segment: string): string {
    ReplaceChar(ReplaceChar(segment, '~', "~0"), '/', "~1")
  }

  function Unescape(token: string): string {
    ReplacePair(ReplacePair(token, '~', '1', '/'), '~', '0', '~')
  }

  /** The reference tokens of section 3 of RFC 6901: no slash, and a tilde only
      in front of 0 or 1. */
  predicate IsToken(t: string) {
    if t == [] then true
    else if t[0] == '/' then false
    else if t[0] == '~' then |t| >= 2 && (t[1] == '0' || t[1] == '1') && IsToken(t[2..])
    else IsToken(t[1..])
  }

  /** The escape sequence of one character. */
  function Code(c: char): string {
    if c == '~' then "~0" else if c == '/' then "~1" else [c]
  }

  lemma {:induction false} ReplaceCharAppend(s: string, t: string, c: char, into: string)
    ensures ReplaceChar(s + t, c, into) == ReplaceChar(s, c, into) + ReplaceChar(t, c, into)
  {
    if s == [] {
      assert s + t == t;
      assert [] + ReplaceChar(t, c, into) == ReplaceChar(t, c, into);
    } else {
      ReplaceCharAppend(s[1..], t, c, into);
      assert (s + t)[1..] == s[1..] + t;
      Reassociate(if s[0] == c then into else [s[0]], ReplaceChar(s[1..], c, into), ReplaceChar(t, c, into));
    }
  }

  lemma Reassociate(a: string, b: string, c: string)
    ensures a + (b + c) == a + b + c
  {}

  lemma EscapePush(c: char, s: string)
    ensures Escape([c] + s) == Code(c) + Escape(s)
  {
    var tilde := ReplaceChar([c], '~', "~0");
    ReplaceCharAppend([c], s, '~', "~0");
    ReplaceCharAppend(tilde, ReplaceChar(s, '~', "~0"), '/', "~1");
    assert [c][1..] == [];
    assert ReplaceChar(tilde, '/', "~1") == Code(c) by {
      if c == '~' {
        assert tilde == "~0" && tilde[1..] == "0";
      } else {
        assert tilde == [c];
      }
    }
  }

  /** After the first replacement the token still spells ~ as ~0. */
  function TildeCode(c: char): string {
    if c == '~' then "~0" else [c]
  }

  lemma FirstPass(c: char, t: string)
    ensures ReplacePair(Code(c) + t, '~', '1', '/') == TildeCode(c) + ReplacePair(t, '~', '1', '/')
  {
    var u := Code(c) + t;
    if c == '~' {
      assert u[1..] == ['0'] + t;
      assert (['0'] + t)[1..] == t;
      assert |t| == 0 ==> t == [] && u == "~0";
    } else if c == '/' {
      assert u[2..] == t;
    } else {
      assert u[1..] == t;
    }
  }

  lemma SecondPass(c: char, t: string)
    ensures ReplacePair(TildeCode(c) + t, '~', '0', '~') == [c] + ReplacePair(t, '~', '0', '~')
  {
    var u := TildeCode(c) + t;
    if c == '~' {
      assert u[2..] == t;
    } else {
      assert u[1..] == t;
    }
  }

  /** Decoding undoes escaping, and an escaped segment is a reference token. */
  lemma {:induction false} UnescapeEscape(s: string)
    ensures Unescape(Escape(s)) == s && IsToken(Escape(s))
  {
    hide ReplacePair;
    if s == [] {
      EmptyToken();
    } else {
      var c, rest := s[0], s[1..];
      assert s == [c] + rest;
      UnescapeEscape(rest);
      EscapePush(c, rest);
      FirstPass(c, Escape(rest));
      SecondPass(c, ReplacePair(Escape(rest), '~', '1', '/'));
      TokenPush(c, Escape(rest));
    }
  }

  lemma EmptyToken()
    ensures Escape("") == "" && Unescape("") == ""
  {}

  lemma TokenPush(c: char, t: string)
    requires IsToken(t)
    ensures IsToken(Code(c) + t)
  {
    var u := Code(c) + t;
    if c == '~' || c == '/' {
      assert u[2..] == t;
    } else {
      assert u[1..] == t;
    }
  }

  /** Every reference token is the escape of what it decodes to. */
  lemma {:induction false} EscapeUnescape(t: string)
    requires IsToken(t)
    ensures Escape(Unescape(t)) == t
  {
    hide ReplacePair;
    if t == [] {
      EmptyToken();
    } else {
      var c, rest := if t[0] == '~' then if t[1] == '0' then '~' else '/' else t[0],
                     if t[0] == '~' then t[2..] else t[1..];
      assert t == Code(c) + rest;
      EscapeUnescape(rest);
      FirstPass(c, rest);
      SecondPass(c, ReplacePair(rest, '~', '1', '/'));
      EscapePush(c, Unescape(rest));
    }
  }

  lemma {:induction false} TokensHaveNoSlash(t: string)
    requires IsToken(t)
    ensures '/' !in t
  {
    if t != [] {
      if t[0] == '~' {
        TokensHaveNoSlash(t[2..]);
        assert t == [t[0], t[1]] + t[2..];
      } else {
        TokensHaveNoSlash(t[1..]);
        assert t == [t[0]] + t[1..];
      }
    }
  }

  /** The escape sequence of each character, whatever follows it. */
  lemma EscapeSequences(c: char, rest: string)
    ensures Escape("/" + rest) == "~1" + Escape(rest) && Escape("~" + rest) == "~0" + Escape(rest)
    ensures c != '/' && c != '~' ==> Escape([c] + rest) == [c] + Escape(rest)
  {
    hide Escape;
    EscapePush('/', rest);
    EscapePush('~', rest);
    EscapePush(c, rest);
  }

  // ----- whole pointers -----

  function Print(tokens: seq<string>): string {
    if tokens == [] then "" else "/" + Escape(tokens[0]) + Print(tokens[1..])
  }

  /** str::split('/'): the pieces between slashes, never none. */
  function Split(s: string): (pieces: seq<string>)
    ensures pieces != []
  {
    if s == [] then [""]
    else
      var rest := Split(s[1..]);
      if s[0] == '/' then [""] + rest else [[s[0]] + rest[0]] + rest[1..]
  }

  function Decoded(pieces: seq<string>): (tokens: seq<string>)
    ensures |tokens| == |pieces|
  {
    seq(|pieces|, i requires 0 <= i < |pieces| => Unescape(pieces[i]))
  }

  function Parse(pointer: string): Option<seq<string>> {
    if pointer == "" then Some([])
    else if pointer[0] != '/' then None
    else Some(Decoded(Split(pointer)[1..]))
  }

  lemma {:induction false} SplitPiece(t: string, s: string)
    requires '/' !in t
    ensures Split(t + s) == [t + Split(s)[0]] + Split(s)[1..]
  {
    if t == [] {
      assert t + s == s && t + Split(s)[0] == Split(s)[0];
      assert Split(s) == [Split(s)[0]] + Split(s)[1..];
    } else {
      assert (t + s)[1..] == t[1..] + s;
      assert forall c :: c in t[1..] ==> c in t;
      SplitPiece(t[1..], s);
      var rest := Split(t[1..] + s);
      assert t == [t[0]] + t[1..];
      assert [t[0]] + rest[0] == t + Split(s)[0];
      assert rest[1..] == Split(s)[1..];
    }
  }

  lemma {:induction false} ParsePrintSplit(tokens: seq<string>)
    requires tokens != []
    ensures Split(Print(tokens))[0] == "" && Decoded(Split(Print(tokens))[1..]) == tokens
  {
    hide Escape;
    hide Unescape;
    hide IsToken;
    var t, rest := Escape(tokens[0]), Print(tokens[1..]);
    UnescapeEscape(tokens[0]);
    TokensHaveNoSlash(t);
    SplitSlash(t + rest);
    assert Print(tokens) == ['/'] + (t + rest);
    SplitPiece(t, rest);
    if tokens[1..] != [] {
      ParsePrintSplit(tokens[1..]);
    }
    DecodedPush(t, Split(rest), tokens);
  }

  lemma SplitSlash(s: string)
    ensures Split(['/'] + s) == [""] + Split(s)
  {
    assert (['/'] + s)[1..] == s;
  }

  lemma DecodedPush(t: string, pieces: seq<string>, tokens: seq<string>)
    requires pieces != [] && pieces[0] == "" && tokens != []
    requires Unescape(t) == tokens[0] && Decoded(pieces[1..]) == tokens[1..]
    ensures Decoded([t + pieces[0]] + pieces[1..]) == tokens
  {
    hide Unescape;
    assert t + "" == t;
    var all := [t] + pieces[1..];
    assert Decoded(all)[1..] == Decoded(pieces[1..]) by {
      assert forall i :: 0 < i < |all| ==> all[i] == pieces[1..][i - 1];
    }
    assert Decoded(all) == [tokens[0]] + Decoded(all)[1..];
  }

  /** Printing and parsing a list of keys gives the list back. */
  lemma ParsePrint(tokens: seq<string>)
    ensures Parse(Print(tokens)) == Some(tokens)
  {
    if tokens != [] {
      ParsePrintSplit(tokens);
    }
  }

  lemma PrintInjective(a: seq<string>, b: seq<string>)
    requires Print(a) == Print(b)
    ensures a == b
  {
    ParsePrint(a);
    ParsePrint(b);
  }

  lemma {:induction false} PrintAppend(a: seq<string>, b: seq<string>)
    ensures Print(a + b) == Print(a) + Print(b)
  {
    hide Escape;
    if a == [] {
      assert a + b == b;
    } else {
      PrintAppend(a[1..], b);
      assert (a + b)[1..] == a[1..] + b;
    }
  }

  lemma PrintPush(base: seq<string>, key: string)
    ensures Print(base + [key]) == Print(base) + "/" + Escape(key)
  {
    PrintAppend(base, [key]);
    assert [key][1..] == [] && "/" + Escape(key) + "" == "/" + Escape(key);
  }

  // ----- lookup -----

  predicate IsDigits(s: string) {
    forall i :: 0 <= i < |s| ==> '0' <= s[i] <= '9'
  }

  function Decimal(s: string): nat
    requires IsDigits(s)
  {
    if s == [] then 0 else Decimal(s[..|s| - 1]) * 10 + (s[|s| - 1] as int - '0' as int)
  }

  /** The array index a token names, if any. */
  function Index(token: string): Option<nat> {
    if token == "" || !IsDigits(token) || (token[0] == '0' && |token| != 1) then None
    else Some(Decimal(token))
  }

  function Child(v: Value, token: string): Option<Value> {
    match v
    case Object(fields) => if token in fields then Some(fields[token]) else None
    case Array(vs) => (
      match Index(token)
      case None => None
      case Some(i) => if i < |vs| then Some(vs[i]) else None)
    case _ => None
  }

  function Walk(v: Value, tokens: seq<string>): Option<Value> {
    if tokens == [] then Some(v)
    else
      match Child(v, tokens[0])
      case None => None
      case Some(child) => Walk(child, tokens[1..])
  }

  lemma WalkStep(v: Value, path: seq<string>)
    requires path != []
    ensures Walk(v, path) == match Child(v, path[0]) case None => None case Some(child) => Walk(child, path[1..])
  {}

  lemma WalkOne(v: Value, key: string)
    ensures Walk(v, [key]) == Child(v, key)
  {
    assert [key][1..] == [];
  }

  /** Value::pointer: section 4 of RFC 6901. */
  function Lookup(v: Value, pointer: string): Option<Value> {
    match Parse(pointer)
    case None => None
    case Some(tokens) => Walk(v, tokens)
  }

  lemma {:induction false} WalkAppend(v: Value, a: seq<string>, b: seq<string>)
    ensures Walk(v, a + b) == if Walk(v, a).Some? then Walk(Walk(v, a).value, b) else None
  {
    if a == [] {
      assert a + b == b;
    } else {
      assert (a + b)[1..] == a[1..] + b;
      if Child(v, a[0]).Some? {
        WalkAppend(Child(v, a[0]).value, a[1..], b);
      }
    }
  }

  // ----- array indices -----

  /** The decimal text of an index. */
  function Show(n: nat): (s: string)
    ensures s != [] && IsDigits(s) && Decimal(s) == n && (s[0] == '0' ==> n == 0 && |s| == 1)
  {
    var digit := [('0' as int + n % 10) as char];
    if n < 10 then
      assert digit[..0] == [];
      digit
    else
      var front := Show(n / 10);
      assert (front + digit)[..|front|] == front;
      front + digit
  }

  /** An index written into a pointer is found again, and needs no escaping. */
  lemma IndexShow(n: nat)
    ensures Index(Show(n)) == Some(n) && Escape(Show(n)) == Show(n)
  {
    PlainText(Show(n));
  }

  /** A token that names an index is the text of that index. */
  lemma {:induction false} IndexIsShown(token: string)
    requires Index(token).Some?
    ensures token == Show(Index(token).value)
    decreases |token|
  {
    var n := |token| - 1;
    if n > 0 {
      PositiveDecimal(token[..n]);
      IndexIsShown(token[..n]);
      ShowPush(token[..n], token[n], Decimal(token[..n]), token);
    } else {
      ShowDigit(token);
    }
  }

  lemma ShowDigit(token: string)
    requires |token| == 1 && IsDigits(token)
    ensures Show(Decimal(token)) == token
  {
    assert token[..0] == [];
  }

  lemma ShowPush(front: string, c: char, k: nat, token: string)
    requires k > 0 && front == Show(k) && '0' <= c <= '9' && token == front + [c] && IsDigits(token)
    ensures Show(Decimal(token)) == token
  {
    assert token[..|front|] == front;
    var digit := c as int - '0' as int;
    assert Decimal(token) == k * 10 + digit;
    QuotientOfTen(k, digit, Decimal(token));
    assert ('0' as int + digit) as char == c;
  }

  lemma QuotientOfTen(k: nat, digit: nat, n: nat)
    requires digit < 10 && n == k * 10 + digit
    ensures n / 10 == k && n % 10 == digit
  {}

  lemma {:induction false} PositiveDecimal(s: string)
    requires s != [] && IsDigits(s) && s[0] != '0'
    ensures Decimal(s) > 0
  {
    var n := |s| - 1;
    if n > 0 {
      PositiveDecimal(s[..n]);
    }
  }

  lemma {:induction false} PlainText(s: string)
    requires forall i :: 0 <= i < |s| ==> s[i] != '~' && s[i] != '/'
    ensures Escape(s) == s
  {
    if s != [] {
      assert s == [s[0]] + s[1..];
      EscapePush(s[0], s[1..]);
      PlainText(s[1..]);
    }
  }
}
