/**
 `application/x-www-form-urlencoded` serialising (section 5.2 of the URL
 Standard) as URLSearchParams performs it, on ASCII text, and why two query
 strings can only be equal when their parameters are.
 */
module FormUrl {
  import opened Wrappers
  import opened Text
  import opened Strings

  type Params = seq<(string, string)>

  ghost predicate IsAscii(s: string) {
    forall i :: 0 <= i < |s| ==> s[i] < 128 as char
  }

  ghost predicate AreAscii(ps: Params) {
    forall i :: 0 <= i < |ps| ==> IsAscii(ps[i].0) && IsAscii(ps[i].1)
  }

  predicate IsKept(c: char) {
    IsAlphanumeric(c) || c == '*' || c == '-' || c == '.' || c == '_'
  }

  function HexDigit(d: nat): (c: char)
    requires d < 16
    ensures IsAlphanumeric(c)
  {
    if d < 10 then '0' + d as char else 'A' + (d - 10) as char
  }

  function EncodeChar(c: char): (s: string)
    ensures s != ""
  {
    if IsKept(c) then [c]
    else if c == ' ' then "+"
    else ['%', HexDigit(c as int / 16 % 16), HexDigit(c as int % 16)]
  }

  function Encode(s: string): string {
    if s == "" then "" else EncodeChar(s[0]) + Encode(s[1..])
  }

  /** A character an encoded name or value can contain. */
  predicate IsEncodedChar(c: char) {
    IsKept(c) || c == '+' || c == '%'
  }

  lemma {:induction false} EncodedChars(s: string)
    ensures forall i :: 0 <= i < |Encode(s)| ==> IsEncodedChar(Encode(s)[i])
  {
    if s != "" {
      EncodedChars(s[1..]);
    }
  }

  lemma HexInjective(c: char, d: char)
    requires c < 128 as char && d < 128 as char
    requires HexDigit(c as int / 16 % 16) == HexDigit(d as int / 16 % 16)
    requires HexDigit(c as int % 16) == HexDigit(d as int % 16)
    ensures c == d
  {
    var x, y := c as int, d as int;
    assert x / 16 % 16 == y / 16 % 16 && x % 16 == y % 16;
    assert x == 16 * (x / 16) + x % 16 && y == 16 * (y / 16) + y % 16;
  }

  lemma EncodeCharPrefixFree(c: char, x: string, d: char, y: string)
    requires c < 128 as char && d < 128 as char
    requires EncodeChar(c) + x == EncodeChar(d) + y
    ensures c == d && x == y
  {
    var e, f := EncodeChar(c), EncodeChar(d);
    assert (e + x)[0] == e[0] && (f + y)[0] == f[0];
    assert |e| == |f|;
    assert e == (e + x)[..|e|] && f == (f + y)[..|e|];
    assert x == (e + x)[|e|..] && y == (f + y)[|e|..];
    if |e| == 3 {
      assert e[1] == f[1] && e[2] == f[2];
      HexInjective(c, d);
    }
  }

  lemma {:induction false} EncodeInjective(a: string, b: string)
    requires IsAscii(a) && IsAscii(b) && Encode(a) == Encode(b)
    ensures a == b
  {
    if a != "" && b != "" {
      EncodeCharPrefixFree(a[0], Encode(a[1..]), b[0], Encode(b[1..]));
      EncodeInjective(a[1..], b[1..]);
      assert a == [a[0]] + a[1..] && b == [b[0]] + b[1..];
    }
  }

  function Pair(p: (string, string)): string {
    Encode(p.0) + "=" + Encode(p.1)
  }

  /** `params.toString()` */
  function Serialize(ps: Params): string {
    if ps == [] then ""
    else if |ps| == 1 then Pair(ps[0])
    else Pair(ps[0]) + "&" + Serialize(ps[1..])
  }

  lemma EncodedLacks(s: string)
    ensures Lacks(Encode(s), '=') && Lacks(Encode(s), '&') && Lacks(Encode(s), '#') && Lacks(Encode(s), '/')
  {
    EncodedChars(s);
  }

  lemma PairLacks(p: (string, string))
    ensures Lacks(Pair(p), '&') && Lacks(Pair(p), '#') && Lacks(Pair(p), '/')
  {
    EncodedLacks(p.0);
    EncodedLacks(p.1);
  }

  lemma {:induction false} SerializeLacks(ps: Params)
    ensures Lacks(Serialize(ps), '#') && Lacks(Serialize(ps), '/')
  {
    if ps != [] {
      PairLacks(ps[0]);
      SerializeLacks(ps[1..]);
    }
  }

  lemma PairInjective(p: (string, string), q: (string, string))
    requires IsAscii(p.0) && IsAscii(p.1) && IsAscii(q.0) && IsAscii(q.1)
    requires Pair(p) == Pair(q)
    ensures p == q
  {
    EncodedLacks(p.0);
    EncodedLacks(q.0);
    CutAt(Encode(p.0), Encode(p.1), Encode(q.0), Encode(q.1), '=');
    EncodeInjective(p.0, q.0);
    EncodeInjective(p.1, q.1);
  }

  /** What follows the first pair. */
  function Tail(ps: Params): string
    requires ps != []
  {
    if |ps| == 1 then "" else "&" + Serialize(ps[1..])
  }

  lemma FirstPair(ps: Params, qs: Params)
    requires ps != [] && qs != [] && Serialize(ps) == Serialize(qs)
    ensures Pair(ps[0]) == Pair(qs[0]) && Tail(ps) == Tail(qs)
  {
    PairLacks(ps[0]);
    PairLacks(qs[0]);
    assert Serialize(ps) == Pair(ps[0]) + Tail(ps) && Serialize(qs) == Pair(qs[0]) + Tail(qs);
    CutUnique(Pair(ps[0]), Tail(ps), Pair(qs[0]), Tail(qs), '&');
  }

  lemma SameTail(ps: Params, qs: Params)
    requires ps != [] && qs != [] && Tail(ps) == Tail(qs)
    ensures Serialize(ps[1..]) == Serialize(qs[1..]) && (|ps| == 1 <==> |qs| == 1)
  {
    assert |ps| > 1 ==> Tail(ps)[1..] == Serialize(ps[1..]);
    assert |qs| > 1 ==> Tail(qs)[1..] == Serialize(qs[1..]);
  }

  lemma SerializeEmpty(ps: Params)
    ensures ps == [] <==> Serialize(ps) == ""
  {
    assert ps != [] ==> |Pair(ps[0])| > 0;
  }

  /** Equal query strings come from equal parameter lists. */
  lemma {:induction false} SerializeInjective(ps: Params, qs: Params)
    requires AreAscii(ps) && AreAscii(qs) && Serialize(ps) == Serialize(qs)
    ensures ps == qs
  {
    SerializeEmpty(ps);
    SerializeEmpty(qs);
    if ps != [] {
      FirstPair(ps, qs);
      SameTail(ps, qs);
      assert IsAscii(ps[0].0) && IsAscii(ps[0].1) && IsAscii(qs[0].0) && IsAscii(qs[0].1);
      PairInjective(ps[0], qs[0]);
      SerializeInjective(ps[1..], qs[1..]);
      SameList(ps, qs);
    }
  }

  lemma SameList<T>(a: seq<T>, b: seq<T>)
    requires a != [] && b != [] && a[0] == b[0] && a[1..] == b[1..]
    ensures a == b
  {
    assert a == [a[0]] + a[1..] && b == [b[0]] + b[1..];
  }

  /** `params.set(name, value)`: replace the first entry of that name and drop the rest, or append. */
  function SetParam(ps: Params, name: string, value: string): Params {
    if ps == [] then [(name, value)]
    else if ps[0].0 == name then [(name, value)] + Without(ps[1..], name)
    else [ps[0]] + SetParam(ps[1..], name, value)
  }

  function Without(ps: Params, name: string): Params {
    if ps == [] then []
    else (if ps[0].0 == name then [] else [ps[0]]) + Without(ps[1..], name)
  }

  lemma {:induction false} SetAppends(ps: Params, name: string, value: string)
    requires forall i :: 0 <= i < |ps| ==> ps[i].0 != name
    ensures SetParam(ps, name, value) == ps + [(name, value)]
  {
    if ps != [] {
      SetAppends(ps[1..], name, value);
      assert ps == [ps[0]] + ps[1..];
    }
  }

  // ----- reading back (section 5.1 of the URL Standard) ----------------------------------------

  /** The value of a hexadecimal digit of either case. */
  function HexValue(c: char): Option<nat> {
    if '0' <= c <= '9' then Some(c as int - '0' as int)
    else if 'A' <= c <= 'F' then Some(c as int - 'A' as int + 10)
    else if 'a' <= c <= 'f' then Some(c as int - 'a' as int + 10)
    else None
  }

  predicate EscapeAhead(s: string) {
    |s| >= 3 && s[0] == '%' && HexValue(s[1]).Some? && HexValue(s[2]).Some?
  }

  /** Percent-decoding; with `plus`, a plus sign stands for a space. */
  function Decode(s: string, plus: bool): string {
    if s == "" then ""
    else if plus && s[0] == '+' then " " + Decode(s[1..], plus)
    else if EscapeAhead(s) then
      [(16 * HexValue(s[1]).value + HexValue(s[2]).value) as char] + Decode(s[3..], plus)
    else [s[0]] + Decode(s[1..], plus)
  }

  function ParsePair(part: string): (string, string) {
    var i := IndexOf(part, "=");
    if i < 0 then (Decode(part, true), "") else (Decode(part[..i], true), Decode(part[i + 1..], true))
  }

  function ParseParts(parts: seq<string>): Params {
    if parts == [] then []
    else (if parts[0] == "" then [] else [ParsePair(parts[0])]) + ParseParts(parts[1..])
  }

  /** The parameters of a query string. */
  function ParseQuery(query: string): Params {
    ParseParts(Split(query, "&"))
  }

  lemma HexReadsBack(d: nat)
    requires d < 16
    ensures HexValue(HexDigit(d)) == Some(d)
  {
  }

  const HEX := "0123456789ABCDEF"

  /** Letters, digits and `*-._` stand for themselves, a space becomes a plus, the rest its code in two digits. */
  lemma EncodeCharExact(c: char)
    requires c < 128 as char
    ensures EncodeChar(c)
         == if '0' <= c <= '9' || 'A' <= c <= 'Z' || 'a' <= c <= 'z' || c in "*-._" then [c]
            else if c == ' ' then "+"
            else ['%', HEX[c as int / 16], HEX[c as int % 16]]
  {
    if !IsKept(c) && c != ' ' {
      HexListed(c as int / 16);
      HexListed(c as int % 16);
    }
  }

  lemma HexListed(d: nat)
    requires d < 16
    ensures HEX[d] == HexDigit(d)
  {
  }

  /** One encoded character is decoded, and the rest goes on. */
  lemma DecodeHead(c: char, rest: string)
    requires c < 128 as char
    ensures Decode(EncodeChar(c) + rest, true) == [c] + Decode(rest, true)
  {
    if IsKept(c) || c == ' ' {
      DecodeLiteral(EncodeChar(c)[0], rest);
    } else {
      var high, low := c as int / 16 % 16, c as int % 16;
      HexReadsBack(high);
      HexReadsBack(low);
      DecodeEscape(HexDigit(high), HexDigit(low), rest);
      assert 16 * high + low == c as int;
    }
  }

  lemma DecodeLiteral(c: char, rest: string)
    requires c != '%'
    ensures Decode([c] + rest, true) == [if c == '+' then ' ' else c] + Decode(rest, true)
  {
    assert ([c] + rest)[1..] == rest;
  }

  lemma DecodeEscape(a: char, b: char, rest: string)
    requires HexValue(a).Some? && HexValue(b).Some?
    ensures Decode(['%', a, b] + rest, true)
         == [(16 * HexValue(a).value + HexValue(b).value) as char] + Decode(rest, true)
  {
    assert (['%', a, b] + rest)[3..] == rest;
  }

  /** Decoding undoes encoding. */
  lemma {:induction false} DecodeUndoesEncode(s: string)
    requires IsAscii(s)
    ensures Decode(Encode(s), true) == s
  {
    if s != "" {
      DecodeUndoesEncode(s[1..]);
      DecodeHead(s[0], Encode(s[1..]));
      assert s == [s[0]] + s[1..];
    }
  }

  lemma PairReadsBack(p: (string, string))
    requires IsAscii(p.0) && IsAscii(p.1)
    ensures Pair(p) != "" && ParsePair(Pair(p)) == p
  {
    var name, value := Encode(p.0), Encode(p.1);
    EncodedLacks(p.0);
    IndexOfFirst(name, '=', value);
    assert ['='] == "=";
    assert Pair(p)[..|name|] == name && Pair(p)[|name| + 1..] == value;
    DecodeUndoesEncode(p.0);
    DecodeUndoesEncode(p.1);
  }

  lemma PartsCons(part: string, rest: seq<string>)
    requires part != ""
    ensures ParseParts([part] + rest) == [ParsePair(part)] + ParseParts(rest)
  {
    assert ([part] + rest)[1..] == rest;
  }

  /** Parsing a query string gives back the parameters it was made from. */
  lemma {:induction false} ParseUndoesSerialize(ps: Params)
    requires AreAscii(ps)
    ensures ParseQuery(Serialize(ps)) == ps
  {
    if ps == [] {
      assert Split("", "&") == [""];
      assert [""][1..] == [];
    } else {
      var rest := ps[1..];
      assert IsAscii(ps[0].0) && IsAscii(ps[0].1);
      PairReadsBack(ps[0]);
      PairLacks(ps[0]);
      if |ps| == 1 {
        LacksContains(Pair(ps[0]), '&', "&");
        SplitNone(Pair(ps[0]), "&");
        PartsCons(Pair(ps[0]), []);
        assert [Pair(ps[0])] + [] == [Pair(ps[0])];
      } else {
        ParseUndoesSerialize(rest);
        SplitCons(Pair(ps[0]), "&", Serialize(rest));
        PartsCons(Pair(ps[0]), Split(Serialize(rest), "&"));
      }
      assert ps == [ps[0]] + rest;
    }
  }

  // ----- setting a parameter -----------------------------------------------------------------------

  /** The values given under one name, in order. */
  function Values(ps: Params, name: string): seq<string> {
    if ps == [] then [] else (if ps[0].0 == name then [ps[0].1] else []) + Values(ps[1..], name)
  }

  lemma {:induction false} WithoutExact(ps: Params, name: string, other: string)
    ensures Values(Without(ps, name), other) == if other == name then [] else Values(ps, other)
  {
    if ps != [] {
      WithoutExact(ps[1..], name, other);
      var rest := Without(ps[1..], name);
      if ps[0].0 != name {
        assert ([ps[0]] + rest)[1..] == rest;
      } else {
        assert [] + rest == rest;
      }
    }
  }

  /** Setting a name leaves it exactly that value and every other name its values. */
  lemma {:induction false} SetExact(ps: Params, name: string, value: string, other: string)
    ensures Values(SetParam(ps, name, value), other) == if other == name then [value] else Values(ps, other)
  {
    if ps == [] {
      assert [(name, value)][1..] == [];
    } else if ps[0].0 == name {
      var rest := Without(ps[1..], name);
      WithoutExact(ps[1..], name, other);
      assert ([(name, value)] + rest)[1..] == rest;
    } else {
      var rest := SetParam(ps[1..], name, value);
      SetExact(ps[1..], name, value, other);
      assert ([ps[0]] + rest)[1..] == rest;
    }
  }
}
