/** The loosely typed values the layout engine returns in a region's `res`
    entry (strings, lists, dictionaries and other atoms) and Python's `str()`
    of them. */
module Py {
  import opened Wrappers

  datatype Value =
    | Str(s: string)
    | List(items: seq<Value>)
    | Dict(entries: seq<Entry>)
      /** A number, boolean or `None`: only its printed form matters here. */
    | Atom(text: string)

  datatype Entry = Entry(key: string, value: Value)

  /** `d.get(key)` on a dictionary's entries: the value of the first entry
      with that key, if any. */
  function Get(entries: seq<Entry>, key: string): (r: Option<Value>)
    ensures r.Some? <==> exists i | 0 <= i < |entries| :: entries[i].key == key
    ensures r.Some? ==> exists i | 0 <= i < |entries| :: entries[i] == Entry(key, r.value)
  {
    if |entries| == 0 then None
    else if entries[0].key == key then Some(entries[0].value)
    else Get(entries[1..], key)
  }

  /** `repr(v)`: strings quoted and escaped, lists and dictionaries
      bracketed with comma-separated members. */
  function Repr(v: Value): string
    decreases v, 1
  {
    match v
    case Str(s) => ReprStr(s)
    case List(items) => "[" + ReprItems(items) + "]"
    case Dict(entries) => "{" + ReprEntries(entries) + "}"
    case Atom(text) => text
  }

  function ReprItems(items: seq<Value>): string
    decreases items, 0
  {
    if |items| == 0 then ""
    else if |items| == 1 then Repr(items[0])
    else Repr(items[0]) + ", " + ReprItems(items[1..])
  }

  function ReprEntries(entries: seq<Entry>): string
    decreases entries, 0
  {
    if |entries| == 0 then ""
    else
      var e := ReprStr(entries[0].key) + ": " + Repr(entries[0].value);
      if |entries| == 1 then e else e + ", " + ReprEntries(entries[1..])
  }

  /** `str(v)`: a string is itself, anything else its `repr`. */
  function StrOf(v: Value): string {
    if v.Str? then v.s else Repr(v)
  }

  /** The quote `repr` puts around a string: a double quote when the string
      holds a single quote and no double quote, a single quote otherwise. */
  function QuoteFor(s: string): (q: char)
    ensures q == '\'' || q == '"'
    ensures q == '"' <==> '\'' in s && '"' !in s
  {
    if '\'' in s && '"' !in s then '"' else '\''
  }

  function HexDigit(d: int): char
    requires 0 <= d < 16
  {
    "0123456789abcdef"[d]
  }

  /** The value of a lower-case hexadecimal digit. */
  function HexValue(c: char): (n: int)
    ensures 0 <= n < 16
  {
    if '0' <= c <= '9' then c as int - '0' as int
    else if 'a' <= c <= 'f' then c as int - 'a' as int + 10
    else 0
  }

  lemma HexValueOfDigit(d: int)
    requires 0 <= d < 16
    ensures HexValue(HexDigit(d)) == d
  {
  }

  /** A Latin-1 character `repr` cannot print as it is: the C0 controls,
      DEL, the C1 controls, the no-break space and the soft hyphen. */
  predicate Unprintable(c: char) {
    c < ' ' || ('\U{7F}' <= c <= '\U{A0}') || c == '\U{AD}'
  }

  /** How `repr` writes one character of a string quoted with `q`. */
  function EscapeChar(c: char, q: char): (e: string)
    requires q == '\'' || q == '"'
    ensures c == q ==> e == ['\\', q]
    ensures c != q ==> q !in e
  {
    if c == q || c == '\\' then ['\\', c]
    else if c == '\t' then "\\t"
    else if c == '\n' then "\\n"
    else if c == '\r' then "\\r"
    else if Unprintable(c) then "\\x" + [HexDigit(c as int / 16), HexDigit(c as int % 16)]
    else [c]
  }

  function Escape(s: string, q: char): string
    requires q == '\'' || q == '"'
  {
    if s == [] then "" else EscapeChar(s[0], q) + Escape(s[1..], q)
  }

  /** `repr(s)` of a string. */
  function ReprStr(s: string): (r: string)
    ensures |r| >= 2 && r[0] == r[|r| - 1] == QuoteFor(s)
    ensures r[1..|r| - 1] == Escape(s, QuoteFor(s))
  {
    var q := QuoteFor(s);
    [q] + Escape(s, q) + [q]
  }

  /** Reading back the body of a Python string literal: a backslash
      followed by `t`, `n`, `r` or `x` and two hexadecimal digits stands for
      that character; before anything else it stands for the next
      character. */
  function Unescape(e: string): string {
    if e == [] then ""
    else if e[0] == '\\' && |e| >= 2 then
      if e[1] == 't' then "\t" + Unescape(e[2..])
      else if e[1] == 'n' then "\n" + Unescape(e[2..])
      else if e[1] == 'r' then "\r" + Unescape(e[2..])
      else if e[1] == 'x' && |e| >= 4 then [(HexValue(e[2]) * 16 + HexValue(e[3])) as char] + Unescape(e[4..])
      else [e[1]] + Unescape(e[2..])
    else [e[0]] + Unescape(e[1..])
  }

  /** Reading the escaped form of one character gives that character back,
      whatever follows it. */
  lemma UnescapeChar(c: char, q: char, rest: string)
    requires q == '\'' || q == '"'
    ensures Unescape(EscapeChar(c, q) + rest) == [c] + Unescape(rest)
  {
    var e := EscapeChar(c, q) + rest;
    if c == q || c == '\\' {
      assert e[2..] == rest;
    } else if c == '\t' || c == '\n' || c == '\r' {
      assert e[2..] == rest;
    } else if Unprintable(c) {
      assert e[4..] == rest;
      HexValueOfDigit(c as int / 16);
      HexValueOfDigit(c as int % 16);
    } else {
      assert e[1..] == rest;
    }
  }

  /** The text between the quotes of `repr(s)` reads back as `s`: the
      escaping loses nothing. */
  lemma {:induction false} UnescapeEscape(s: string, q: char)
    requires q == '\'' || q == '"'
    ensures Unescape(Escape(s, q)) == s
  {
    if s != [] {
      var e := Escape(s[1..], q);
      assert Unescape(Escape(s, q)) == [s[0]] + Unescape(e) by {
        assert Escape(s, q) == EscapeChar(s[0], q) + e;
        UnescapeChar(s[0], q, e);
      }
      UnescapeEscape(s[1..], q);
      assert [s[0]] + s[1..] == s;
    }
  }

  /** `repr` of a one-string list whose string holds a single quote switches
      to double quotes, so the element is still a well-formed literal. */
  lemma ReprQuotedListExample()
    ensures Repr(List([Str("it's")])) == "[\"it's\"]"
  {
    var s := "it's";
    assert s[2] == '\'';
    ReprDoubleQuoted(s);
    assert ReprItems([Str(s)]) == Repr(Str(s));
  }

  /** A string holding a single quote, no double quote and nothing else that
      needs escaping is printed between double quotes as it is. */
  lemma ReprDoubleQuoted(s: string)
    requires '\'' in s && '"' !in s && Plain(s, '"')
    ensures Repr(Str(s)) == "\"" + s + "\""
  {
    EscapePlain(s, '"');
  }

  /** `s` holds no backslash, no character that needs escaping and not the
      quote `q`. */
  predicate Plain(s: string, q: char) {
    s == []
    || (s[0] != q && s[0] != '\\' && s[0] != '\t' && s[0] != '\n' && s[0] != '\r' && !Unprintable(s[0])
        && Plain(s[1..], q))
  }

  /** A plain string is written as it is. */
  lemma {:induction false} EscapePlain(s: string, q: char)
    requires q == '\'' || q == '"'
    requires Plain(s, q)
    ensures Escape(s, q) == s
  {
    if s != [] {
      EscapePlain(s[1..], q);
      assert s == [s[0]] + s[1..];
    }
  }
}
