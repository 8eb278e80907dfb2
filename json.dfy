/**
 * The JSON values the editor keeps in a block's template data, with
 * JSON.stringify and JSON.parse on them (section 25.5 of ECMA-262), and the
 * decimal text of the numeric ids (Number.prototype.toString and parseInt).
 *
 * A value is a string or an object; an object is the list of its
 * properties in insertion order, the order `for ... in` and
 * JSON.stringify walk them in.
 */
module Json {
  import opened Wrappers
  import opened Strings

  datatype Value = Str(s: string) | Obj(fields: seq<(string, Value)>)

  type Fields = seq<(string, Value)>

  // ---------------------------------------------------------------------
  // Objects as insertion-ordered property lists
  // ---------------------------------------------------------------------

  /** Reading `o[key]`: the value stored under `key`, if any. */
  function Get(fs: Fields, key: string): (r: Option<Value>)
  {
    if fs == [] then None
    else if fs[0].0 == key then Some(fs[0].1)
    else Get(fs[1..], key)
  }

  /** `key` is one of the property names. */
  predicate HasKey(fs: Fields, key: string)
  {
    exists i :: 0 <= i < |fs| && fs[i].0 == key
  }

  lemma {:induction false} GetFinds(fs: Fields, key: string)
    ensures Get(fs, key).Some? <==> HasKey(fs, key)
    ensures Get(fs, key).Some? ==> (key, Get(fs, key).value) in fs
  {
    if fs != [] {
      GetFinds(fs[1..], key);
      if HasKey(fs[1..], key) {
        var i :| 0 <= i < |fs[1..]| && fs[1..][i].0 == key;
        assert fs[i + 1].0 == key;
      }
      if HasKey(fs, key) && fs[0].0 != key {
        var i :| 0 <= i < |fs| && fs[i].0 == key;
        assert fs[1..][i - 1].0 == key;
      }
    }
  }

  /** No property name is listed twice, as in every JavaScript object. */
  predicate UniqueKeys(fs: Fields)
  {
    forall i, j :: 0 <= i < j < |fs| ==> fs[i].0 != fs[j].0
  }

  /** Every object inside `v`, at any depth, lists each name once. */
  predicate WellFormed(v: Value)
  {
    match v
    case Str(_) => true
    case Obj(fs) => UniqueKeys(fs) && forall k :: 0 <= k < |fs| ==> WellFormed(fs[k].1)
  }

  /** The assignment `o[key] = v`: an existing property keeps its place, a new one goes last. */
  function Put(fs: Fields, key: string, v: Value): (r: Fields)
  {
    if fs == [] then [(key, v)]
    else if fs[0].0 == key then [(key, v)] + fs[1..]
    else [fs[0]] + Put(fs[1..], key, v)
  }

  /** After `o[key] = v`, reading `key` gives `v` and every other property reads as before. */
  lemma {:induction false} PutGet(fs: Fields, key: string, v: Value, other: string)
    ensures Get(Put(fs, key, v), key) == Some(v)
    ensures other != key ==> Get(Put(fs, key, v), other) == Get(fs, other)
  {
    if fs != [] && fs[0].0 != key {
      PutGet(fs[1..], key, v, other);
    }
  }

  /** A new name is appended; an existing one is overwritten where it stands. */
  lemma {:induction false} PutPlace(fs: Fields, key: string, v: Value)
    ensures !HasKey(fs, key) ==> Put(fs, key, v) == fs + [(key, v)]
    ensures HasKey(fs, key) ==> |Put(fs, key, v)| == |fs|
    ensures forall i :: 0 <= i < |fs| && fs[i].0 != key ==> Put(fs, key, v)[i] == fs[i]
  {
    if fs != [] && fs[0].0 != key {
      PutPlace(fs[1..], key, v);
      if !HasKey(fs, key) {
        forall i | 0 <= i < |fs[1..]|
          ensures fs[1..][i].0 != key
        {
          assert fs[1..][i] == fs[i + 1];
        }
      } else {
        var i :| 0 <= i < |fs| && fs[i].0 == key;
        assert fs[1..][i - 1].0 == key;
      }
    }
  }

  /** The property names after `o[key] = v`: those before, and `key`. */
  lemma {:induction false} PutNames(fs: Fields, key: string, v: Value, name: string)
    ensures HasKey(Put(fs, key, v), name) <==> HasKey(fs, name) || name == key
  {
    PutGet(fs, key, v, name);
    GetFinds(Put(fs, key, v), name);
    GetFinds(fs, name);
    if name == key {
      assert Get(Put(fs, key, v), key).Some?;
    }
  }

  /** Assignment keeps the names unique. */
  lemma {:induction false} PutUnique(fs: Fields, key: string, v: Value)
    requires UniqueKeys(fs)
    ensures UniqueKeys(Put(fs, key, v))
  {
    if fs != [] && fs[0].0 != key {
      PutUnique(fs[1..], key, v);
      var r := Put(fs, key, v);
      var tail := Put(fs[1..], key, v);
      forall i | 0 <= i < |fs[1..]|
        ensures fs[1..][i].0 != fs[0].0
      {
        assert fs[1..][i] == fs[i + 1];
      }
      PutNames(fs[1..], key, v, fs[0].0);
      forall j | 0 < j < |r|
        ensures r[0].0 != r[j].0
      {
        assert r[j] == tail[j - 1];
      }
    }
  }

  /** Assignment stores only well-formed values. */
  lemma {:induction false} PutMembersWellFormed(fs: Fields, key: string, v: Value)
    requires WellFormed(v) && forall k :: 0 <= k < |fs| ==> WellFormed(fs[k].1)
    ensures forall k :: 0 <= k < |Put(fs, key, v)| ==> WellFormed(Put(fs, key, v)[k].1)
  {
    if fs != [] && fs[0].0 != key {
      PutMembersWellFormed(fs[1..], key, v);
      assert Put(fs, key, v)[1..] == Put(fs[1..], key, v);
    }
  }

  lemma PutWellFormed(fs: Fields, key: string, v: Value)
    requires WellFormed(Obj(fs)) && WellFormed(v)
    ensures WellFormed(Obj(Put(fs, key, v)))
  {
    PutUnique(fs, key, v);
    PutMembersWellFormed(fs, key, v);
  }

  // ---------------------------------------------------------------------
  // JSON.stringify
  // ---------------------------------------------------------------------

  function HexDigit(n: nat): char
    requires n < 16
  {
    "0123456789abcdef"[n]
  }

  /** The code points QuoteJSONString writes as an escape sequence. */
  predicate Escaped(c: char)
  {
    c == '"' || c == '\\' || c < ' '
  }

  /** What follows the backslash of an escape sequence. */
  function EscapeCode(c: char): (r: string)
    requires Escaped(c)
  {
    if c == '"' then ['"']
    else if c == '\\' then ['\\']
    else if c == '\U{0008}' then ['b']
    else if c == '\U{000C}' then ['f']
    else if c == '\n' then ['n']
    else if c == '\r' then ['r']
    else if c == '\t' then ['t']
    else ['u', '0', '0', HexDigit(c as int / 16), HexDigit(c as int % 16)]
  }

  /** How QuoteJSONString writes one code point. */
  function QuoteChar(c: char): (r: string)
  {
    if Escaped(c) then ['\\'] + EscapeCode(c) else [c]
  }

  function QuoteBody(s: string): string
  {
    if s == [] then [] else QuoteChar(s[0]) + QuoteBody(s[1..])
  }

  /** JSON.stringify of a string: the quoted, escaped text. */
  function Quote(s: string): string
  {
    ['"'] + QuoteBody(s) + ['"']
  }

  /** JSON.stringify: no white space, properties in insertion order. */
  function Stringify(v: Value): string
  {
    match v
    case Str(s) => Quote(s)
    case Obj(fs) => ['{'] + Members(fs) + ['}']
  }

  function Members(fs: Fields): string
  {
    if fs == [] then [] else Member(fs[0]) + MoreMembers(fs[1..])
  }

  function MoreMembers(fs: Fields): string
  {
    if fs == [] then [] else [','] + Member(fs[0]) + MoreMembers(fs[1..])
  }

  function Member(m: (string, Value)): string
  {
    Quote(m.0) + [':'] + Stringify(m.1)
  }

  // ---------------------------------------------------------------------
  // JSON.parse
  // ---------------------------------------------------------------------

  /**
   * What a parser step yields: the value read, whether it is representable
   * here (`exact`; numbers, booleans, null, arrays and unpaired surrogate
   * escapes are valid JSON that is not), and the text after it.
   */
  datatype Parsed<T> = Parsed(value: T, exact: bool, rest: string)

  /** Why JSON.parse gives no value: the text is not JSON, or it is JSON of a kind not modelled. */
  datatype ParseError = SyntaxError | Unsupported

  /** The JSON white space characters. */
  predicate IsJsonSpace(c: char)
  {
    c == ' ' || c == '\t' || c == '\n' || c == '\r'
  }

  function SkipSpace(s: string): (r: string)
    ensures |r| <= |s|
  {
    if s != [] && IsJsonSpace(s[0]) then SkipSpace(s[1..]) else s
  }

  lemma SkipNoSpace(s: string)
    requires s != [] && !IsJsonSpace(s[0])
    ensures SkipSpace(s) == s
  {
  }

  predicate IsDigit(c: char)
  {
    '0' <= c <= '9'
  }

  function HexValue(c: char): (r: Option<nat>)
    ensures r.Some? ==> r.value < 16
  {
    if '0' <= c <= '9' then Some(c as int - '0' as int)
    else if 'a' <= c <= 'f' then Some(c as int - 'a' as int + 10)
    else if 'A' <= c <= 'F' then Some(c as int - 'A' as int + 10)
    else None
  }

  /** The code unit written as four hex digits at the start of `s`. */
  function Hex4(s: string): (r: Option<nat>)
    ensures r.Some? ==> r.value < 0x10000
  {
    if |s| < 4 then None
    else match (HexValue(s[0]), HexValue(s[1]), HexValue(s[2]), HexValue(s[3]))
      case (Some(a), Some(b), Some(c), Some(d)) => Some(((a * 16 + b) * 16 + c) * 16 + d)
      case _ => None
  }

  /** U+FFFD, what stands in for an unpaired surrogate (the value is then not exact). */
  const Replacement: char := '\U{FFFD}'

  /** One escape sequence after its backslash. */
  function Unescape(s: string): (r: Option<Parsed<char>>)
    ensures r.Some? ==> |r.value.rest| < |s|
  {
    if s == [] then None
    else if s[0] == '"' then Some(Parsed('"', true, s[1..]))
    else if s[0] == '\\' then Some(Parsed('\\', true, s[1..]))
    else if s[0] == '/' then Some(Parsed('/', true, s[1..]))
    else if s[0] == 'b' then Some(Parsed('\U{0008}', true, s[1..]))
    else if s[0] == 'f' then Some(Parsed('\U{000C}', true, s[1..]))
    else if s[0] == 'n' then Some(Parsed('\n', true, s[1..]))
    else if s[0] == 'r' then Some(Parsed('\r', true, s[1..]))
    else if s[0] == 't' then Some(Parsed('\t', true, s[1..]))
    else if s[0] == 'u' then
      match Hex4(s[1..])
      case None => None
      case Some(code) =>
        if 0xD800 <= code < 0xDC00 then
          var low := if |s| >= 11 && s[5] == '\\' && s[6] == 'u' then Hex4(s[7..]) else None;
          if low.Some? && 0xDC00 <= low.value < 0xE000 then
            Some(Parsed((0x10000 + (code - 0xD800) * 0x400 + (low.value - 0xDC00)) as char, true, s[11..]))
          else Some(Parsed(Replacement, false, s[5..]))
        else if 0xDC00 <= code < 0xE000 then Some(Parsed(Replacement, false, s[5..]))
        else Some(Parsed(code as char, true, s[5..]))
    else None
  }

  /** The characters of a string literal up to its closing quote, which `s` follows the opening one of. */
  function ParseString(s: string): (r: Option<Parsed<string>>)
    decreases |s|
    ensures r.Some? ==> |r.value.rest| < |s|
  {
    if s == [] then None
    else if s[0] == '"' then Some(Parsed([], true, s[1..]))
    else if s[0] == '\\' then
      match Unescape(s[1..])
      case None => None
      case Some(e) =>
        match ParseString(e.rest)
        case None => None
        case Some(t) => Some(Parsed([e.value] + t.value, e.exact && t.exact, t.rest))
    else if s[0] < ' ' then None
    else
      match ParseString(s[1..])
      case None => None
      case Some(t) => Some(Parsed([s[0]] + t.value, t.exact, t.rest))
  }

  /** The number of decimal digits `s` starts with. */
  function LeadingDigits(s: string): (n: nat)
    ensures n <= |s|
    ensures forall k :: 0 <= k < n ==> IsDigit(s[k])
    ensures n < |s| ==> !IsDigit(s[n])
  {
    if s != [] && IsDigit(s[0]) then 1 + LeadingDigits(s[1..]) else 0
  }

  /** A JSON number at the start of `s`: `-`? int frac? exp?; the text after it. */
  function ParseNumber(s: string): (r: Option<string>)
    ensures r.Some? ==> |r.value| < |s|
  {
    var a := if s != [] && s[0] == '-' then 1 else 0;
    var n := LeadingDigits(s[a..]);
    if n == 0 then None
    else
      var i := a + (if s[a] == '0' then 1 else n);
      var f := if i < |s| && s[i] == '.' then LeadingDigits(s[i + 1..]) else 0;
      if i < |s| && s[i] == '.' && f == 0 then None
      else
        var j := if i < |s| && s[i] == '.' then i + 1 + f else i;
        if j < |s| && (s[j] == 'e' || s[j] == 'E') then
          var b := if j + 1 < |s| && (s[j + 1] == '+' || s[j + 1] == '-') then j + 2 else j + 1;
          var e := LeadingDigits(s[b..]);
          if e == 0 then None else Some(s[b + e..])
        else Some(s[j..])
  }

  /** `true`, `false` or `null` at the start of `s`: the text after it. */
  function ParseLiteral(s: string): (r: Option<string>)
    ensures r.Some? ==> |r.value| < |s|
  {
    if |s| >= 4 && (s[..4] == "true" || s[..4] == "null") then Some(s[4..])
    else if |s| >= 5 && s[..5] == "false" then Some(s[5..])
    else None
  }

  /** One JSON value after optional white space. */
  function ParseValue(s: string): (r: Option<Parsed<Value>>)
    decreases |s|, 3
    ensures r.Some? ==> |r.value.rest| < |s| && WellFormed(r.value.value)
  {
    var u := SkipSpace(s);
    if u == [] then None
    else if u[0] == '"' then
      match ParseString(u[1..])
      case None => None
      case Some(t) => Some(Parsed(Str(t.value), t.exact, t.rest))
    else if u[0] == '{' then ParseObject(u[1..])
    else if u[0] == '[' then
      match ParseArray(u[1..])
      case None => None
      case Some(rest) => Some(Parsed(Str([]), false, rest))
    else if u[0] == '-' || IsDigit(u[0]) then
      match ParseNumber(u)
      case None => None
      case Some(rest) => Some(Parsed(Str([]), false, rest))
    else
      match ParseLiteral(u)
      case None => None
      case Some(rest) => Some(Parsed(Str([]), false, rest))
  }

  /** An object, which `s` follows the `{` of. */
  function ParseObject(s: string): (r: Option<Parsed<Value>>)
    decreases |s|, 2
    ensures r.Some? ==> |r.value.rest| < |s| && WellFormed(r.value.value)
  {
    var u := SkipSpace(s);
    if u != [] && u[0] == '}' then Some(Parsed(Obj([]), true, u[1..]))
    else ParseMembers(u, [], true)
  }

  /** The members of an object, from a `"` on; each goes in as `o[key] = v` would. */
  function ParseMembers(s: string, acc: Fields, exact: bool): (r: Option<Parsed<Value>>)
    requires WellFormed(Obj(acc))
    decreases |s|, 1
    ensures r.Some? ==> |r.value.rest| < |s| && WellFormed(r.value.value)
  {
    match ParseMember(s)
    case None => None
    case Some(m) =>
      var acc' := Put(acc, m.value.0, m.value.1);
      PutWellFormed(acc, m.value.0, m.value.1);
      var exact' := exact && m.exact;
      var x := SkipSpace(m.rest);
      if x != [] && x[0] == ',' then ParseMembers(SkipSpace(x[1..]), acc', exact')
      else if x != [] && x[0] == '}' then Some(Parsed(Obj(acc'), exact', x[1..]))
      else None
  }

  /** One `"key" : value` pair. */
  function ParseMember(s: string): (r: Option<Parsed<(string, Value)>>)
    decreases |s|, 0
    ensures r.Some? ==> |r.value.rest| < |s| && WellFormed(r.value.value.1)
  {
    if s == [] || s[0] != '"' then None
    else
      match ParseString(s[1..])
      case None => None
      case Some(k) =>
        var w := SkipSpace(k.rest);
        if w == [] || w[0] != ':' then None
        else
          match ParseValue(w[1..])
          case None => None
          case Some(p) => Some(Parsed((k.value, p.value), k.exact && p.exact, p.rest))
  }

  /** An array, which `s` follows the `[` of; only its extent matters here. */
  function ParseArray(s: string): (r: Option<string>)
    decreases |s| + 1, 2
    ensures r.Some? ==> |r.value| < |s|
  {
    var u := SkipSpace(s);
    if u != [] && u[0] == ']' then Some(u[1..])
    else ParseElements(u)
  }

  function ParseElements(s: string): (r: Option<string>)
    decreases |s| + 1, 1
    ensures r.Some? ==> |r.value| < |s|
  {
    match ParseValue(s)
    case None => None
    case Some(p) =>
      var x := SkipSpace(p.rest);
      if x != [] && x[0] == ',' then ParseElements(x[1..])
      else if x != [] && x[0] == ']' then Some(x[1..])
      else None
  }

  /** JSON.parse: one value, white space around it, nothing else. */
  function Parse(text: string): (r: Result<Value, ParseError>)
  {
    match ParseValue(text)
    case None => Err(SyntaxError)
    case Some(p) =>
      if SkipSpace(p.rest) != [] then Err(SyntaxError)
      else if !p.exact then Err(Unsupported)
      else Ok(p.value)
  }

  // ---------------------------------------------------------------------
  // JSON.parse reads back what JSON.stringify writes
  // ---------------------------------------------------------------------

  lemma HexDigitValue(n: nat)
    requires n < 16
    ensures HexValue(HexDigit(n)) == Some(n)
  {
    var digits := "0123456789abcdef";
    assert digits[n] == HexDigit(n);
    if n < 10 {
      assert digits[n] as int == '0' as int + n by {
        assert digits[..10] == "0123456789";
        assert forall k :: 0 <= k < 10 ==> "0123456789"[k] as int == '0' as int + k;
      }
    } else {
      assert digits[n] as int == 'a' as int + n - 10 by {
        assert digits[10..] == "abcdef";
        assert forall k :: 0 <= k < 6 ==> "abcdef"[k] as int == 'a' as int + k;
        assert digits[n] == digits[10..][n - 10];
      }
    }
  }

  /** The `\u00xx` form of a control character reads back as that character. */
  lemma ControlEscapeParses(c: char, u: string)
    requires c < ' '
    ensures Unescape(['u', '0', '0', HexDigit(c as int / 16), HexDigit(c as int % 16)] + u)
            == Some(Parsed(c, true, u))
  {
    var s := ['u', '0', '0', HexDigit(c as int / 16), HexDigit(c as int % 16)] + u;
    HexDigitValue(0);
    HexDigitValue(c as int / 16);
    HexDigitValue(c as int % 16);
    assert HexDigit(0) == '0';
    assert s[1..][0] == '0' && s[1..][1] == '0';
    assert Hex4(s[1..]) == Some(c as int);
    assert s[5..] == u;
  }

  /** Every escape sequence the writer produces reads back as its character. */
  lemma UnescapeCode(c: char, u: string)
    requires Escaped(c)
    ensures Unescape(EscapeCode(c) + u) == Some(Parsed(c, true, u))
  {
    var short := c == '"' || c == '\\' || c == '\U{0008}' || c == '\U{000C}'
                 || c == '\n' || c == '\r' || c == '\t';
    if short {
      ShortEscapeParses(c, EscapeCode(c)[0], u);
    } else {
      ControlEscapeParses(c, u);
    }
  }

  lemma ShortEscapeParses(c: char, x: char, u: string)
    requires (c, x) in {('"', '"'), ('\\', '\\'), ('\U{0008}', 'b'), ('\U{000C}', 'f'),
                        ('\n', 'n'), ('\r', 'r'), ('\t', 't')}
    ensures Escaped(c) && EscapeCode(c) == [x]
    ensures Unescape([x] + u) == Some(Parsed(c, true, u))
  {
    assert ([x] + u)[0] == x && ([x] + u)[1..] == u;
  }

  // One step of the parser each, on the shapes the writer produces.

  lemma ParseStringClose(u: string)
    ensures ParseString(['"'] + u) == Some(Parsed([], true, u))
  {
    assert (['"'] + u)[1..] == u;
  }

  lemma ParseStringPlain(c: char, u: string)
    requires c != '"' && c != '\\' && c >= ' ' && ParseString(u).Some?
    ensures var t := ParseString(u).value;
            ParseString([c] + u) == Some(Parsed([c] + t.value, t.exact, t.rest))
  {
    assert ([c] + u)[1..] == u;
  }

  lemma ParseStringEscape(e: string, c: char, u: string)
    requires Unescape(e + u) == Some(Parsed(c, true, u)) && ParseString(u).Some?
    ensures var t := ParseString(u).value;
            ParseString(['\\'] + (e + u)) == Some(Parsed([c] + t.value, t.exact, t.rest))
  {
    assert (['\\'] + (e + u))[1..] == e + u;
  }

  lemma ParseValueString(body: string)
    requires ParseString(body).Some?
    ensures var t := ParseString(body).value;
            ParseValue(['"'] + body) == Some(Parsed(Str(t.value), t.exact, t.rest))
  {
    SkipNoSpace(['"'] + body);
    assert (['"'] + body)[1..] == body;
  }

  lemma ParseValueObject(body: string)
    ensures ParseValue(['{'] + body) == ParseObject(body)
  {
    SkipNoSpace(['{'] + body);
    assert (['{'] + body)[1..] == body;
  }

  lemma ParseObjectEmpty(u: string)
    ensures ParseObject(['}'] + u) == Some(Parsed(Obj([]), true, u))
  {
    SkipNoSpace(['}'] + u);
    assert (['}'] + u)[1..] == u;
  }

  lemma ParseObjectMembers(s: string)
    requires s != [] && s[0] == '"'
    ensures ParseObject(s) == ParseMembers(s, [], true)
  {
    SkipNoSpace(s);
  }

  lemma ParseMembersLast(s: string, acc: Fields, m: (string, Value), u: string)
    requires WellFormed(Obj(acc)) && ParseMember(s) == Some(Parsed(m, true, ['}'] + u))
    ensures ParseMembers(s, acc, true) == Some(Parsed(Obj(Put(acc, m.0, m.1)), true, u))
  {
    SkipNoSpace(['}'] + u);
    assert (['}'] + u)[1..] == u;
  }

  lemma ParseMembersNext(s: string, acc: Fields, m: (string, Value), next: string)
    requires WellFormed(Obj(acc)) && WellFormed(Obj(Put(acc, m.0, m.1)))
    requires ParseMember(s) == Some(Parsed(m, true, [','] + next)) && next != [] && next[0] == '"'
    ensures ParseMembers(s, acc, true) == ParseMembers(next, Put(acc, m.0, m.1), true)
  {
    SkipNoSpace([','] + next);
    assert ([','] + next)[1..] == next;
    SkipNoSpace(next);
  }

  lemma ParseMemberStep(body: string, key: string, text: string)
    requires ParseString(body) == Some(Parsed(key, true, [':'] + text)) && ParseValue(text).Some?
    ensures var p := ParseValue(text).value;
            ParseMember(['"'] + body) == Some(Parsed((key, p.value), p.exact, p.rest))
  {
    assert (['"'] + body)[1..] == body;
    SkipNoSpace([':'] + text);
    assert ([':'] + text)[1..] == text;
  }

  /** Reading one written character in front of a string literal's remainder. */
  lemma QuoteCharParses(c: char, u: string)
    requires ParseString(u).Some?
    ensures var t := ParseString(u).value;
            ParseString(QuoteChar(c) + u) == Some(Parsed([c] + t.value, t.exact, t.rest))
  {
    if Escaped(c) {
      assert QuoteChar(c) + u == ['\\'] + (EscapeCode(c) + u);
      UnescapeCode(c, u);
      ParseStringEscape(EscapeCode(c), c, u);
    } else {
      ParseStringPlain(c, u);
    }
  }

  /** The escaped body of a string, then its closing quote, reads back as the string. */
  lemma {:induction false} QuoteBodyParses(s: string, u: string)
    ensures ParseString(QuoteBody(s) + (['"'] + u)) == Some(Parsed(s, true, u))
  {
    if s == [] {
      assert QuoteBody(s) + (['"'] + u) == ['"'] + u;
      ParseStringClose(u);
    } else {
      var tail := QuoteBody(s[1..]) + (['"'] + u);
      QuoteBodyParses(s[1..], u);
      QuoteBodyText(s, ['"'] + u);
      QuoteCharParses(s[0], tail);
      assert [s[0]] + s[1..] == s;
    }
  }

  lemma QuoteBodyText(s: string, t: string)
    requires s != []
    ensures QuoteBody(s) + t == QuoteChar(s[0]) + (QuoteBody(s[1..]) + t)
  {
  }

  lemma Assoc(a: string, b: string, c: string)
    ensures a + b + c == a + (b + c)
  {
  }

  /** Whatever text follows, JSON.parse reads `Stringify(v)` back as `v`. */
  lemma {:induction false} StringifyParses(v: Value, u: string)
    requires WellFormed(v)
    ensures ParseValue(Stringify(v) + u) == Some(Parsed(v, true, u))
  {
    StringifyText(v, u);
    match v
    case Str(s) =>
      QuoteBodyParses(s, u);
      ParseValueString(QuoteBody(s) + (['"'] + u));
    case Obj(fs) =>
      ParseValueObject(Members(fs) + (['}'] + u));
      ObjectParses(fs, u);
  }

  lemma StringifyText(v: Value, u: string)
    ensures v.Str? ==> Stringify(v) + u == ['"'] + (QuoteBody(v.s) + (['"'] + u))
    ensures v.Obj? ==> Stringify(v) + u == ['{'] + (Members(v.fields) + (['}'] + u))
  {
    match v
    case Str(s) =>
      Regroup(['"'], QuoteBody(s), ['"'], u);
    case Obj(fs) =>
      Regroup(['{'], Members(fs), ['}'], u);
  }

  lemma Regroup(a: string, b: string, c: string, u: string)
    ensures a + b + c + u == a + (b + (c + u))
  {
  }

  lemma {:induction false} ObjectParses(fs: Fields, u: string)
    requires WellFormed(Obj(fs))
    decreases fs, |fs| + 1
    ensures ParseObject(Members(fs) + (['}'] + u)) == Some(Parsed(Obj(fs), true, u))
  {
    MembersText(fs, ['}'] + u);
    if fs == [] {
      ParseObjectEmpty(u);
    } else {
      ParseObjectMembers(Members(fs) + (['}'] + u));
      MembersParse(fs, 0, u);
      assert fs[..0] == [];
    }
  }

  lemma MembersText(fs: Fields, t: string)
    ensures fs == [] ==> Members(fs) + t == t
    ensures fs != [] ==> Members(fs) + t == Member(fs[0]) + (MoreMembers(fs[1..]) + t)
                         && (Members(fs) + t)[0] == '"'
  {
    if fs == [] {
      assert Members(fs) == [];
    } else {
      assert Members(fs) == Member(fs[0]) + MoreMembers(fs[1..]);
      Assoc(Member(fs[0]), MoreMembers(fs[1..]), t);
      MemberStartsQuote(fs[0], MoreMembers(fs[1..]) + t);
    }
  }

  /** Reading the `i`-th member of a well-formed object appends it to the ones before. */
  lemma PutNext(fs: Fields, i: nat)
    requires UniqueKeys(fs) && i < |fs|
    ensures Put(fs[..i], fs[i].0, fs[i].1) == fs[..i + 1]
  {
    assert !HasKey(fs[..i], fs[i].0) by {
      forall j | 0 <= j < i
        ensures fs[..i][j].0 != fs[i].0
      {
      }
    }
    PutPlace(fs[..i], fs[i].0, fs[i].1);
    assert fs[..i] + [(fs[i].0, fs[i].1)] == fs[..i + 1];
  }

  /** The text after the `i`-th member: `}` after the last one, else a comma and the next member. */
  lemma MembersAfter(fs: Fields, i: nat, u: string)
    requires i < |fs|
    ensures i + 1 == |fs| ==> MoreMembers(fs[i + 1..]) + (['}'] + u) == ['}'] + u
    ensures i + 1 < |fs| ==>
              && MoreMembers(fs[i + 1..]) + (['}'] + u)
                 == [','] + (Member(fs[i + 1]) + (MoreMembers(fs[i + 2..]) + (['}'] + u)))
              && (Member(fs[i + 1]) + (MoreMembers(fs[i + 2..]) + (['}'] + u)))[0] == '"'
  {
    if i + 1 < |fs| {
      var m := Member(fs[i + 1]);
      var more := MoreMembers(fs[i + 2..]);
      var t := ['}'] + u;
      assert fs[i + 1..][1..] == fs[i + 2..];
      assert MoreMembers(fs[i + 1..]) == [','] + m + more;
      Assoc([','] + m, more, t);
      Assoc([','], m, more + t);
      MemberStartsQuote(fs[i + 1], more + t);
    }
  }

  lemma MemberStartsQuote(m: (string, Value), t: string)
    ensures (Member(m) + t)[0] == '"'
  {
  }

  lemma PrefixWellFormed(fs: Fields, n: nat)
    requires WellFormed(Obj(fs)) && n <= |fs|
    ensures WellFormed(Obj(fs[..n]))
  {
    forall k | 0 <= k < n
      ensures WellFormed(fs[..n][k].1)
    {
      assert fs[..n][k] == fs[k];
    }
  }

  /** The members from the `i`-th on, then `}`, complete the object begun with the first `i`. */
  lemma {:induction false} MembersParse(fs: Fields, i: nat, u: string)
    requires WellFormed(Obj(fs)) && i < |fs|
    decreases fs, |fs| - i
    ensures ParseMembers(Member(fs[i]) + (MoreMembers(fs[i + 1..]) + (['}'] + u)), fs[..i], true)
            == Some(Parsed(Obj(fs), true, u))
  {
    var rest := MoreMembers(fs[i + 1..]) + (['}'] + u);
    MemberParses(fs[i], rest);
    PutNext(fs, i);
    PrefixWellFormed(fs, i);
    PrefixWellFormed(fs, i + 1);
    MembersAfter(fs, i, u);
    if i + 1 == |fs| {
      ParseMembersLast(Member(fs[i]) + rest, fs[..i], fs[i], u);
      assert fs[..i + 1] == fs;
    } else {
      var next := Member(fs[i + 1]) + (MoreMembers(fs[i + 2..]) + (['}'] + u));
      ParseMembersNext(Member(fs[i]) + rest, fs[..i], fs[i], next);
      MembersParse(fs, i + 1, u);
    }
  }

  /** One written member reads back as that key and value. */
  lemma {:induction false} MemberParses(m: (string, Value), u: string)
    requires WellFormed(m.1)
    ensures ParseMember(Member(m) + u) == Some(Parsed(m, true, u))
  {
    var text := Stringify(m.1) + u;
    MemberText(m, u);
    QuoteBodyParses(m.0, [':'] + text);
    StringifyParses(m.1, u);
    ParseMemberStep(QuoteBody(m.0) + (['"'] + ([':'] + text)), m.0, text);
  }

  lemma MemberText(m: (string, Value), u: string)
    ensures Member(m) + u == ['"'] + (QuoteBody(m.0) + (['"'] + ([':'] + (Stringify(m.1) + u))))
  {
    var q := QuoteBody(m.0);
    var v := Stringify(m.1);
    assert Member(m) == ['"'] + q + ['"'] + [':'] + v;
    Regroup5(['"'], q, ['"'], [':'], v, u);
  }

  lemma Regroup5(a: string, b: string, c: string, d: string, e: string, u: string)
    ensures a + b + c + d + e + u == a + (b + (c + (d + (e + u))))
  {
  }

  /** JSON.parse(JSON.stringify(v)) is `v`. */
  lemma ParseStringify(v: Value)
    requires WellFormed(v)
    ensures Parse(Stringify(v)) == Ok(v)
  {
    StringifyParses(v, []);
    assert Stringify(v) + [] == Stringify(v);
  }

  /** Two values that are written the same are the same value. */
  lemma StringifyInjective(v: Value, w: Value)
    requires WellFormed(v) && WellFormed(w) && Stringify(v) == Stringify(w)
    ensures v == w
  {
    ParseStringify(v);
    ParseStringify(w);
  }

  // ---------------------------------------------------------------------
  // Decimal text of ids
  // ---------------------------------------------------------------------

  function DigitChar(d: nat): (c: char)
    requires d < 10
    ensures IsDigit(c) && c as int - '0' as int == d
  {
    ('0' as int + d) as char
  }

  function NatToString(n: nat): (r: string)
    ensures r != [] && forall k :: 0 <= k < |r| ==> IsDigit(r[k])
  {
    if n < 10 then [DigitChar(n)] else NatToString(n / 10) + [DigitChar(n % 10)]
  }

  /** Number.prototype.toString for a whole number, as `'' + n` writes it. */
  function IntToString(n: int): (r: string)
  {
    if n < 0 then ['-'] + NatToString(-n) else NatToString(n)
  }

  /** The number a string of decimal digits denotes. */
  function DigitsValue(ds: string): nat
    requires forall k :: 0 <= k < |ds| ==> IsDigit(ds[k])
  {
    if ds == [] then 0
    else
      var last := ds[|ds| - 1];
      assert IsDigit(last);
      DigitsValue(ds[..|ds| - 1]) * 10 + (last as int - '0' as int)
  }

  /** The number of hexadecimal digits `s` starts with. */
  function LeadingHexDigits(s: string): (n: nat)
    ensures n <= |s|
    ensures forall k :: 0 <= k < n ==> HexValue(s[k]).Some?
    ensures n < |s| ==> HexValue(s[n]).None?
  {
    if s != [] && HexValue(s[0]).Some? then 1 + LeadingHexDigits(s[1..]) else 0
  }

  /** The number a string of hexadecimal digits denotes. */
  function HexDigitsValue(ds: string): nat
    requires forall k :: 0 <= k < |ds| ==> HexValue(ds[k]).Some?
  {
    if ds == [] then 0 else HexDigitsValue(ds[..|ds| - 1]) * 16 + HexValue(ds[|ds| - 1]).value
  }

  /**
   * parseInt with no radix (section 19.2.5 of ECMA-262): leading white
   * space, a sign, `0x` for hexadecimal, then the longest run of digits;
   * None stands for NaN, when there is no digit.
   */
  function ParseInt(s: string): (r: Option<int>)
  {
    var t := s[LeadingSpaces(s)..];
    var negative := t != [] && t[0] == '-';
    var u := if t != [] && (t[0] == '-' || t[0] == '+') then t[1..] else t;
    match Magnitude(u)
    case None => None
    case Some(m) =>
      var k: int := m;
      Some(if negative then -k else k)
  }

  /** The digits after the sign: hexadecimal after `0x` or `0X`, else decimal. */
  function Magnitude(u: string): (r: Option<nat>)
  {
    if |u| >= 2 && u[0] == '0' && (u[1] == 'x' || u[1] == 'X') then
      var n := LeadingHexDigits(u[2..]);
      if n == 0 then None else Some(HexDigitsValue(u[2..][..n]))
    else
      var n := LeadingDigits(u);
      if n == 0 then None else Some(DigitsValue(u[..n]))
  }

  lemma {:induction false} NatToStringValue(n: nat)
    ensures DigitsValue(NatToString(n)) == n
  {
    var r := NatToString(n);
    if n >= 10 {
      NatToStringValue(n / 10);
      assert r[..|r| - 1] == NatToString(n / 10);
    } else {
      assert r[..|r| - 1] == [];
    }
  }

  lemma DigitsNotSpace(r: string)
    requires r != [] && IsDigit(r[0])
    ensures LeadingSpaces(r) == 0
  {
  }

  lemma NoLeadingSpace(s: string)
    requires s != [] && (s[0] == '-' || IsDigit(s[0]))
    ensures s[LeadingSpaces(s)..] == s
  {
    assert !IsJsSpace(s[0]);
    assert s[0..] == s;
  }

  lemma ParseIntUnsigned(d: string, m: nat)
    requires d != [] && IsDigit(d[0]) && Magnitude(d) == Some(m)
    ensures ParseInt(d) == Some(m)
  {
    NoLeadingSpace(d);
  }

  lemma ParseIntMinus(d: string, m: nat)
    requires Magnitude(d) == Some(m)
    ensures ParseInt(['-'] + d) == Some(-(m as int))
  {
    NoLeadingSpace(['-'] + d);
    assert (['-'] + d)[1..] == d;
  }

  lemma MagnitudeDigits(d: string)
    requires d != [] && forall k :: 0 <= k < |d| ==> IsDigit(d[k])
    ensures Magnitude(d) == Some(DigitsValue(d))
  {
    assert LeadingDigits(d) == |d| && d[..|d|] == d;
  }

  /** parseInt reads back the text of every whole number. */
  lemma ParseIntToString(n: int)
    ensures ParseInt(IntToString(n)) == Some(n)
  {
    var m: nat := if n < 0 then -n else n;
    NatToStringValue(m);
    MagnitudeDigits(NatToString(m));
    if n < 0 {
      ParseIntMinus(NatToString(m), m);
    } else {
      ParseIntUnsigned(NatToString(m), m);
    }
  }
}
