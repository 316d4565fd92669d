/**
 * The parsed query string `req.query` of an Express request: a plain object
 * whose values are strings, arrays (a repeated key such as `?select=a&select=b`)
 * or nested objects (bracket keys such as `averageCost[lte]=10000`). `entries`
 * lists the own properties in the order JavaScript enumerates them, which is
 * the order JSON.stringify writes them in.
 */
module QueryObject {
  import opened Wrappers

  datatype Value = Str(text: string) | Arr(items: seq<Value>) | Obj(fields: seq<Field>)
  datatype Field = Field(key: string, value: Value)

  /** A JavaScript object never holds the same own key twice. */
  predicate DistinctKeys(fs: seq<Field>)
  {
    forall i, j :: 0 <= i < j < |fs| ==> fs[i].key != fs[j].key
  }

  /** `obj[key]`: the value under `key`, or `None` for `undefined`. */
  function Lookup(fs: seq<Field>, key: string): (r: Option<Value>)
    ensures r.Some? ==> Field(key, r.value) in fs
    ensures r.None? <==> forall f :: f in fs ==> f.key != key
  {
    if |fs| == 0 then None
    else if fs[0].key == key then Some(fs[0].value)
    else Lookup(fs[1..], key)
  }

  /** The object after `delete obj[key]`: that key gone, the others in their order. */
  function Without(fs: seq<Field>, key: string): (r: seq<Field>)
    ensures forall f :: f in r <==> f in fs && f.key != key
    ensures DistinctKeys(fs) ==> DistinctKeys(r)
    ensures DistinctKeys(fs) ==>
      forall k :: Lookup(r, k) == if k == key then None else Lookup(fs, k)
  {
    if |fs| == 0 then []
    else if fs[0].key == key then Without(fs[1..], key)
    else [fs[0]] + Without(fs[1..], key)
  }

  /** The object after deleting each of `keys` in turn, as `keys.forEach(k => delete obj[k])`. */
  function WithoutAll(fs: seq<Field>, keys: seq<string>): (r: seq<Field>)
    ensures forall f :: f in r <==> f in fs && f.key !in keys
    ensures DistinctKeys(fs) ==> DistinctKeys(r)
    ensures DistinctKeys(fs) ==>
      forall k :: Lookup(r, k) == if k in keys then None else Lookup(fs, k)
  {
    if |keys| == 0 then fs
    else Without(WithoutAll(fs, keys[..|keys| - 1]), keys[|keys| - 1])
  }

  /** A plain JavaScript object updated in place. */
  class Dict {
    var entries: seq<Field>

    ghost predicate Valid()
      reads this
    {
      DistinctKeys(entries)
    }

    /** `{...source}`: a new object with the same own keys and values in the same order. */
    constructor Copy(source: Dict)
      requires source.Valid()
      ensures Valid() && entries == source.entries
    {
      entries := source.entries;
    }

    /** `obj[key]`. */
    function Get(key: string): Option<Value>
      reads this
    {
      Lookup(entries, key)
    }

    /** `delete obj[key]`: removes the key if present; deleting a missing key changes nothing. */
    method Delete(key: string)
      requires Valid()
      modifies this
      ensures Valid() && entries == Without(old(entries), key)
      ensures Get(key).None?
      ensures forall k :: k != key ==> Get(k) == old(Get(k))
    {
      entries := Without(entries, key);
    }
  }

  // ---- JSON.stringify ----

  function HexDigit(n: nat): char
    requires n < 16
  {
    if n < 10 then ('0' as int + n) as char else ('a' as int + n - 10) as char
  }

  function HexValue(c: char): (r: Option<nat>)
    ensures r.Some? ==> r.value < 16
  {
    if '0' <= c <= '9' then Some(c as int - '0' as int)
    else if 'a' <= c <= 'f' then Some(c as int - 'a' as int + 10)
    else if 'A' <= c <= 'F' then Some(c as int - 'A' as int + 10)
    else None
  }

  lemma HexDigitValue(n: nat)
    requires n < 16
    ensures HexValue(HexDigit(n)) == Some(n)
  {
  }

  /**
   * How JSON.stringify writes one character inside a string literal:
   * the quote, the backslash and the five control characters with a short
   * escape get it, other control characters become `\u00` and two lower-case
   * hex digits, and everything else is copied.
   */
  function EscapeChar(c: char): (r: string)
    ensures |r| >= 1
    ensures forall i :: 0 <= i < |r| ==> r[i] as int >= 0x20
    ensures (r[0] == '\\') == (|r| > 1)
    ensures |r| == 1 <==> c != '"' && c != '\\' && c as int >= 0x20
    ensures |r| == 1 ==> r == [c]
  {
    var n := c as int;
    if c == '"' then "\\\""
    else if c == '\\' then "\\\\"
    else if n == 0x08 then "\\b"
    else if n == 0x09 then "\\t"
    else if n == 0x0A then "\\n"
    else if n == 0x0C then "\\f"
    else if n == 0x0D then "\\r"
    else if n < 0x20 then "\\u00" + [HexDigit(n / 16), HexDigit(n % 16)]
    else [c]
  }

  function Escape(s: string): (r: string)
    ensures |r| >= |s|
    ensures forall i :: 0 <= i < |r| ==> r[i] as int >= 0x20
  {
    if |s| == 0 then [] else EscapeChar(s[0]) + Escape(s[1..])
  }

  /** A JSON string literal for `s`. */
  function Quote(s: string): string
  {
    "\"" + Escape(s) + "\""
  }

  /** `c` in front of the string read so far, the text after the literal unchanged. */
  function Prepend(c: char, r: Option<(string, string)>): Option<(string, string)>
  {
    if r.Some? then Some(([c] + r.value.0, r.value.1)) else None
  }

  function SimpleEscape(e: char): Option<char>
  {
    if e == '"' then Some('"')
    else if e == '\\' then Some('\\')
    else if e == '/' then Some('/')
    else if e == 'b' then Some(8 as char)
    else if e == 't' then Some(9 as char)
    else if e == 'n' then Some(10 as char)
    else if e == 'f' then Some(12 as char)
    else if e == 'r' then Some(13 as char)
    else None
  }

  /** The code point written by four hex digits, if they are hex digits and name a character. */
  function UnicodeEscape(ds: string): Option<char>
    requires |ds| == 4
  {
    var h0, h1, h2, h3 := HexValue(ds[0]), HexValue(ds[1]), HexValue(ds[2]), HexValue(ds[3]);
    if h0.None? || h1.None? || h2.None? || h3.None? then None
    else
      var n := ((h0.value * 16 + h1.value) * 16 + h2.value) * 16 + h3.value;
      if 0xD800 <= n < 0xE000 then None else Some(n as char)
  }

  /**
   * Reference reading of a JSON string literal after its opening quote, as
   * JSON.parse reads it: the string and the text after the closing quote.
   * A raw control character, an unknown escape or a missing closing quote
   * make the literal malformed.
   */
  function ReadString(t: string): (r: Option<(string, string)>)
    ensures r.Some? ==> |r.value.1| < |t|
    decreases |t|
  {
    if |t| == 0 then None
    else if t[0] == '"' then Some(([], t[1..]))
    else if t[0] as int < 0x20 then None
    else if t[0] != '\\' then Prepend(t[0], ReadString(t[1..]))
    else if |t| < 2 then None
    else if t[1] == 'u' then
      if |t| < 6 then None
      else
        var u := UnicodeEscape(t[2..6]);
        if u.None? then None else Prepend(u.value, ReadString(t[6..]))
    else
      var e := SimpleEscape(t[1]);
      if e.None? then None else Prepend(e.value, ReadString(t[2..]))
  }

  lemma ReadShortEscape(c: char, rest: string)
    requires |EscapeChar(c)| == 2
    ensures ReadString(EscapeChar(c) + rest) == Prepend(c, ReadString(rest))
  {
    var t := EscapeChar(c) + rest;
    assert t[2..] == rest;
  }

  lemma ReadUnicodeEscape(c: char, rest: string)
    requires |EscapeChar(c)| == 6
    ensures ReadString(EscapeChar(c) + rest) == Prepend(c, ReadString(rest))
  {
    var n := c as int;
    var t := EscapeChar(c) + rest;
    HexDigitValue(n / 16);
    HexDigitValue(n % 16);
    assert t[2..6] == "00" + [HexDigit(n / 16), HexDigit(n % 16)];
    assert UnicodeEscape(t[2..6]) == Some(c);
    assert t[6..] == rest;
  }

  /** One escaped character reads back as that character, and reading goes on after it. */
  lemma ReadChar(c: char, rest: string)
    ensures ReadString(EscapeChar(c) + rest) == Prepend(c, ReadString(rest))
  {
    var r := EscapeChar(c);
    if |r| == 2 {
      ReadShortEscape(c, rest);
    } else if |r| == 6 {
      ReadUnicodeEscape(c, rest);
    } else {
      assert r == [c];
      assert (r + rest)[1..] == rest;
    }
  }

  /**
   * The escaped text of a string, closed by a quote, reads back as that
   * string, and the literal ends at that quote: no character of the string
   * can close it early.
   */
  lemma {:induction false} ReadEscaped(s: string, rest: string)
    ensures ReadString(Escape(s) + "\"" + rest) == Some((s, rest))
    decreases |s|
  {
    if |s| == 0 {
      assert Escape(s) + "\"" + rest == "\"" + rest;
      assert ("\"" + rest)[1..] == rest;
    } else {
      var tail := Escape(s[1..]) + "\"" + rest;
      assert Escape(s) + "\"" + rest == EscapeChar(s[0]) + tail;
      ReadEscaped(s[1..], rest);
      ReadChar(s[0], tail);
      assert [s[0]] + s[1..] == s;
    }
  }

  /** `JSON.stringify(v)` for the values a query string parses to. */
  function Serialize(v: Value): (r: string)
    ensures |r| >= 2
    ensures v.Str? ==> r[0] == '"' && r[|r| - 1] == '"'
    ensures v.Arr? ==> r[0] == '[' && r[|r| - 1] == ']'
    ensures v.Obj? ==> r[0] == '{' && r[|r| - 1] == '}'
    decreases v, 1
  {
    match v
    case Str(t) => Quote(t)
    case Arr(_) => "[" + ItemsFrom(v, 0) + "]"
    case Obj(_) => "{" + MembersFrom(v, 0) + "}"
  }

  /** The array elements from index `i`, separated by commas. */
  function ItemsFrom(v: Value, i: nat): string
    requires v.Arr? && i <= |v.items|
    decreases v, 0, |v.items| - i
  {
    if i == |v.items| then []
    else
      assert v.items[i] in v.items;
      (if i == 0 then "" else ",") + Serialize(v.items[i]) + ItemsFrom(v, i + 1)
  }

  /** The `"key":value` members from index `i`, separated by commas. */
  function MembersFrom(v: Value, i: nat): string
    requires v.Obj? && i <= |v.fields|
    decreases v, 0, |v.fields| - i
  {
    if i == |v.fields| then []
    else
      assert v.fields[i] in v.fields;
      (if i == 0 then "" else ",") + Member(v.fields[i]) + MembersFrom(v, i + 1)
  }

  /** One member, `"key":value`. */
  function Member(f: Field): string
    decreases f, 0
  {
    Quote(f.key) + ":" + Serialize(f.value)
  }

  // ---- reading JSON text back ----

  /**
   * Reference reader for JSON text without insignificant whitespace, the
   * form JSON.stringify writes: the value at the head of `t` and the text
   * after it.
   */
  function ParseValue(t: string): (r: Option<(Value, string)>)
    ensures r.Some? ==> |r.value.1| < |t|
    decreases |t|, 0
  {
    if |t| == 0 then None
    else if t[0] == '"' then
      var s := ReadString(t[1..]);
      if s.None? then None else Some((Str(s.value.0), s.value.1))
    else if t[0] == '[' then
      if |t| > 1 && t[1] == ']' then Some((Arr([]), t[2..]))
      else
        var e := ParseElements(t[1..]);
        if e.None? then None else Some((Arr(e.value.0), e.value.1))
    else if t[0] == '{' then
      if |t| > 1 && t[1] == '}' then Some((Obj([]), t[2..]))
      else
        var m := ParseMembers(t[1..]);
        if m.None? then None else Some((Obj(m.value.0), m.value.1))
    else None
  }

  /** The elements of a non-empty array, through its closing `]`. */
  function ParseElements(t: string): (r: Option<(seq<Value>, string)>)
    ensures r.Some? ==> |r.value.1| < |t|
    decreases |t|, 1
  {
    var v := ParseValue(t);
    if v.None? || |v.value.1| == 0 then None
    else
      var after := v.value.1;
      if after[0] == ']' then Some(([v.value.0], after[1..]))
      else if after[0] == ',' then
        var more := ParseElements(after[1..]);
        if more.None? then None else Some(([v.value.0] + more.value.0, more.value.1))
      else None
  }

  /** The `"key":value` members of a non-empty object, through its closing `}`. */
  function ParseMembers(t: string): (r: Option<(seq<Field>, string)>)
    ensures r.Some? ==> |r.value.1| < |t|
    decreases |t|, 1
  {
    if |t| == 0 || t[0] != '"' then None
    else
      var k := ReadString(t[1..]);
      if k.None? || |k.value.1| == 0 || k.value.1[0] != ':' then None
      else
        var v := ParseValue(k.value.1[1..]);
        if v.None? || |v.value.1| == 0 then None
        else
          var f := Field(k.value.0, v.value.0);
          var after := v.value.1;
          if after[0] == '}' then Some(([f], after[1..]))
          else if after[0] == ',' then
            var more := ParseMembers(after[1..]);
            if more.None? then None else Some(([f] + more.value.0, more.value.1))
          else None
  }

  lemma SliceCons<T>(s: seq<T>, i: nat)
    requires i < |s|
    ensures s[i..] == [s[i]] + s[i + 1..]
    ensures i + 1 == |s| ==> s[i..] == [s[i]]
  {
  }

  /** The text after a leading piece `p`. */
  lemma DropPrefix(p: string, u: string)
    ensures (p + u)[|p|..] == u
  {
  }

  lemma Assoc(a: string, b: string, c: string)
    ensures a + b + c == a + (b + c)
  {
  }

  lemma ValueString(t: string, s: string, rest: string)
    requires |t| > 0 && t[0] == '"' && ReadString(t[1..]) == Some((s, rest))
    ensures ParseValue(t) == Some((Str(s), rest))
  {
  }

  lemma ValueEmpty(open: char, close: char, rest: string)
    requires (open, close) == ('[', ']') || (open, close) == ('{', '}')
    ensures ParseValue([open, close] + rest) ==
      Some((if open == '[' then Arr([]) else Obj([]), rest))
  {
    DropPrefix([open, close], rest);
  }

  lemma ValueArray(t: string, xs: seq<Value>, rest: string)
    requires |t| > 1 && t[0] == '[' && t[1] != ']' && ParseElements(t[1..]) == Some((xs, rest))
    ensures ParseValue(t) == Some((Arr(xs), rest))
  {
  }

  lemma ValueObject(t: string, fs: seq<Field>, rest: string)
    requires |t| > 1 && t[0] == '{' && t[1] != '}' && ParseMembers(t[1..]) == Some((fs, rest))
    ensures ParseValue(t) == Some((Obj(fs), rest))
  {
  }

  /** The first element read and followed by `]`: a one-element array ends there. */
  lemma ElementsLast(t: string, x: Value, after: string)
    requires ParseValue(t) == Some((x, after)) && |after| > 0 && after[0] == ']'
    ensures ParseElements(t) == Some(([x], after[1..]))
  {
  }

  /** The first element read and followed by `,`: the others are read after the comma. */
  lemma ElementsNext(t: string, x: Value, after: string, xs: seq<Value>, rest: string)
    requires ParseValue(t) == Some((x, after)) && |after| > 0 && after[0] == ','
    requires ParseElements(after[1..]) == Some((xs, rest))
    ensures ParseElements(t) == Some(([x] + xs, rest))
  {
  }

  /** The first member read and followed by `}`: a one-member object ends there. */
  lemma MembersLast(t: string, k: string, kr: string, x: Value, after: string)
    requires |t| > 0 && t[0] == '"' && ReadString(t[1..]) == Some((k, kr))
    requires |kr| > 0 && kr[0] == ':' && ParseValue(kr[1..]) == Some((x, after))
    requires |after| > 0 && after[0] == '}'
    ensures ParseMembers(t) == Some(([Field(k, x)], after[1..]))
  {
  }

  /** The first member read and followed by `,`: the others are read after the comma. */
  lemma MembersNext(t: string, k: string, kr: string, x: Value, after: string,
                    fs: seq<Field>, rest: string)
    requires |t| > 0 && t[0] == '"' && ReadString(t[1..]) == Some((k, kr))
    requires |kr| > 0 && kr[0] == ':' && ParseValue(kr[1..]) == Some((x, after))
    requires |after| > 0 && after[0] == ','
    requires ParseMembers(after[1..]) == Some((fs, rest))
    ensures ParseMembers(t) == Some(([Field(k, x)] + fs, rest))
  {
  }

  /** A serialised string reads back as that string. */
  lemma ParseString(s: string, rest: string)
    ensures ParseValue(Serialize(Str(s)) + rest) == Some((Str(s), rest))
  {
    var t := Serialize(Str(s)) + rest;
    var body := Escape(s) + "\"" + rest;
    Assoc("\"", Escape(s), "\"");
    Assoc("\"", Escape(s) + "\"", rest);
    assert t == "\"" + body;
    DropPrefix("\"", body);
    ReadEscaped(s, rest);
    ValueString(t, s, rest);
  }

  /** A serialised array reads back once its elements do. */
  lemma ParseArray(v: Value, rest: string)
    requires v.Arr?
    requires |v.items| > 0 ==>
      ParseElements(Serialize(v.items[0]) + ItemsFrom(v, 1) + "]" + rest) == Some((v.items, rest))
    ensures ParseValue(Serialize(v) + rest) == Some((v, rest))
  {
    var t := Serialize(v) + rest;
    if |v.items| == 0 {
      assert ItemsFrom(v, 0) == [];
      assert t == ['[', ']'] + rest;
      ValueEmpty('[', ']', rest);
    } else {
      var x := v.items[0];
      var inner := Serialize(x) + ItemsFrom(v, 1);
      var body := inner + "]" + rest;
      assert ItemsFrom(v, 0) == inner by {
        assert "" + Serialize(x) == Serialize(x);
      }
      Assoc("[", inner, "]");
      Assoc("[", inner + "]", rest);
      assert t == "[" + body;
      DropPrefix("[", body);
      assert t[1] == Serialize(x)[0];
      ValueArray(t, v.items, rest);
    }
  }

  /** A serialised object reads back once its members do. */
  lemma ParseObject(v: Value, rest: string)
    requires v.Obj?
    requires |v.fields| > 0 ==>
      ParseMembers(Member(v.fields[0]) + MembersFrom(v, 1) + "}" + rest) == Some((v.fields, rest))
    ensures ParseValue(Serialize(v) + rest) == Some((v, rest))
  {
    var t := Serialize(v) + rest;
    if |v.fields| == 0 {
      assert MembersFrom(v, 0) == [];
      assert t == ['{', '}'] + rest;
      ValueEmpty('{', '}', rest);
    } else {
      var inner := Member(v.fields[0]) + MembersFrom(v, 1);
      var body := inner + "}" + rest;
      assert MembersFrom(v, 0) == inner by {
        assert "" + Member(v.fields[0]) == Member(v.fields[0]);
      }
      Assoc("{", inner, "}");
      Assoc("{", inner + "}", rest);
      assert t == "{" + body;
      DropPrefix("{", body);
      assert t[1] == '"';
      ValueObject(t, v.fields, rest);
    }
  }

  /** What JSON.stringify writes reads back as the value, and reading stops right after it. */
  lemma {:induction false} ParseSerialize(v: Value, rest: string)
    ensures ParseValue(Serialize(v) + rest) == Some((v, rest))
    decreases v, 2
  {
    match v
    case Str(s) =>
      ParseString(s, rest);
    case Arr(items) =>
      if |items| > 0 {
        ParseItems(v, 0, rest);
      }
      ParseArray(v, rest);
    case Obj(fields) =>
      if |fields| > 0 {
        ParseFields(v, 0, rest);
      }
      ParseObject(v, rest);
  }

  /** The elements of an array from index `i`, then its closing `]`. */
  lemma {:induction false} ParseItems(v: Value, i: nat, rest: string)
    requires v.Arr? && i < |v.items|
    ensures ParseElements(Serialize(v.items[i]) + ItemsFrom(v, i + 1) + "]" + rest) ==
      Some((v.items[i..], rest))
    decreases v, 1, |v.items| - i
  {
    var x := v.items[i];
    assert x in v.items;
    var tail := ItemsFrom(v, i + 1);
    var after := tail + "]" + rest;
    var t := Serialize(x) + tail + "]" + rest;
    Assoc(Serialize(x), tail, "]");
    Assoc(Serialize(x), tail + "]", rest);
    assert t == Serialize(x) + after;
    ParseSerialize(x, after);
    if i + 1 == |v.items| {
      assert tail == [];
      assert after == "]" + rest;
      DropPrefix("]", rest);
      ElementsLast(t, x, after);
      SliceCons(v.items, i);
    } else {
      var y := v.items[i + 1];
      var more := Serialize(y) + ItemsFrom(v, i + 2) + "]" + rest;
      assert tail == "," + Serialize(y) + ItemsFrom(v, i + 2);
      Assoc(",", Serialize(y), ItemsFrom(v, i + 2));
      Assoc(",", Serialize(y) + ItemsFrom(v, i + 2), "]");
      Assoc(",", Serialize(y) + ItemsFrom(v, i + 2) + "]", rest);
      assert after == "," + more;
      DropPrefix(",", more);
      ParseItems(v, i + 1, rest);
      ElementsNext(t, x, after, v.items[i + 1..], rest);
      SliceCons(v.items, i);
    }
  }

  /** A member followed by more text: its key reads back, then the colon, then its value. */
  lemma MemberHead(f: Field, after: string)
    requires ParseValue(Serialize(f.value) + after) == Some((f.value, after))
    ensures var t := Member(f) + after; var kr := ":" + (Serialize(f.value) + after);
      |t| > 0 && t[0] == '"' && ReadString(t[1..]) == Some((f.key, kr)) &&
      |kr| > 0 && kr[0] == ':' && ParseValue(kr[1..]) == Some((f.value, after))
  {
    var sx := Serialize(f.value);
    var kr := ":" + (sx + after);
    var t := Member(f) + after;
    assert t == "\"" + (Escape(f.key) + "\"" + kr) by {
      Assoc(Quote(f.key), ":", sx);
      Assoc(Quote(f.key), ":" + sx, after);
      Assoc(":", sx, after);
      Assoc("\"", Escape(f.key), "\"");
      Assoc("\"", Escape(f.key) + "\"", kr);
    }
    DropPrefix("\"", Escape(f.key) + "\"" + kr);
    ReadEscaped(f.key, kr);
    DropPrefix(":", sx + after);
  }

  /** The members of an object from index `i`, then its closing `}`. */
  lemma {:induction false} ParseFields(v: Value, i: nat, rest: string)
    requires v.Obj? && i < |v.fields|
    ensures ParseMembers(Member(v.fields[i]) + MembersFrom(v, i + 1) + "}" + rest) ==
      Some((v.fields[i..], rest))
    decreases v, 1, |v.fields| - i
  {
    var f := v.fields[i];
    assert f in v.fields;
    var tail := MembersFrom(v, i + 1);
    var after := tail + "}" + rest;
    var t := Member(f) + tail + "}" + rest;
    Assoc(Member(f), tail, "}");
    Assoc(Member(f), tail + "}", rest);
    ParseSerialize(f.value, after);
    var kr := ":" + (Serialize(f.value) + after);
    MemberHead(f, after);
    assert f == Field(f.key, f.value);
    if i + 1 == |v.fields| {
      assert tail == [];
      assert after == "}" + rest;
      DropPrefix("}", rest);
      MembersLast(t, f.key, kr, f.value, after);
      SliceCons(v.fields, i);
    } else {
      var g := v.fields[i + 1];
      var more := Member(g) + MembersFrom(v, i + 2) + "}" + rest;
      assert after == "," + more by {
        Assoc(",", Member(g), MembersFrom(v, i + 2));
        Assoc(",", Member(g) + MembersFrom(v, i + 2), "}");
        Assoc(",", Member(g) + MembersFrom(v, i + 2) + "}", rest);
      }
      DropPrefix(",", more);
      ParseFields(v, i + 1, rest);
      MembersNext(t, f.key, kr, f.value, after, v.fields[i + 1..], rest);
      SliceCons(v.fields, i);
    }
  }

  /** Two values with the same JSON text are the same value. */
  lemma SerializeInjective(v: Value, w: Value)
    requires Serialize(v) == Serialize(w)
    ensures v == w
  {
    ParseSerialize(v, []);
    ParseSerialize(w, []);
  }
}
