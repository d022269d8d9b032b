/**
 The in-place percent decoder of the OCSP responder (`ocsp.c`, `urldecode`).
 `Decode` says what the routine computes; the grammar of percent-encodings
 (section 2.1 of RFC 3986) is given separately by token lists.
 */
module UrlDecode {
  import opened Common

  const PERCENT: byte := 37

  /** True when `s` starts with an escape that can be decoded. */
  predicate StartsEscape(s: seq<byte>) {
    |s| >= 3 && s[0] == PERCENT && IsHexCode(s[1]) && IsHexCode(s[2])
  }

  function EscapeValue(hi: byte, lo: byte): byte
    requires IsHexCode(hi) && IsHexCode(lo)
  {
    HexCodeValue(hi) * 16 + HexCodeValue(lo)
  }

  function Decode(s: seq<byte>): Option<seq<byte>> {
    if s == [] then Some([])
    else if s[0] != PERCENT then Prepend(s[0], Decode(s[1..]))
    else if StartsEscape(s) then Prepend(EscapeValue(s[1], s[2]), Decode(s[3..]))
    else None
  }

  function Prepend(b: byte, rest: Option<seq<byte>>): Option<seq<byte>> {
    if rest.Some? then Some([b] + rest.value) else None
  }

  // ----- the grammar of percent-encodings

  datatype Token = Plain(b: byte) | Escaped(hi: byte, lo: byte)

  predicate ValidToken(t: Token) {
    match t
    case Plain(b) => b != PERCENT
    case Escaped(hi, lo) => IsHexCode(hi) && IsHexCode(lo)
  }

  predicate ValidTokens(ts: seq<Token>) {
    forall i :: 0 <= i < |ts| ==> ValidToken(ts[i])
  }

  function RenderToken(t: Token): seq<byte> {
    match t
    case Plain(b) => [b]
    case Escaped(hi, lo) => [PERCENT, hi, lo]
  }

  function Render(ts: seq<Token>): seq<byte> {
    if ts == [] then [] else RenderToken(ts[0]) + Render(ts[1..])
  }

  function TokenMeaning(t: Token): byte
    requires ValidToken(t)
  {
    match t
    case Plain(b) => b
    case Escaped(hi, lo) => EscapeValue(hi, lo)
  }

  /** The byte string that a token list encodes, one byte per token. */
  function Meaning(ts: seq<Token>): seq<byte>
    requires ValidTokens(ts)
  {
    seq(|ts|, i requires 0 <= i < |ts| => TokenMeaning(ts[i]))
  }

  /** Decoding gives back the encoded bytes, whichever bytes were escaped and in whichever letter case. */
  lemma {:induction false} DecodeRender(ts: seq<Token>)
    requires ValidTokens(ts)
    ensures Decode(Render(ts)) == Some(Meaning(ts))
  {
    if ts == [] {
    } else {
      DecodeRenderAppend(ts, []);
      assert Render(ts) + [] == Render(ts);
      assert Meaning(ts) + [] == Meaning(ts);
    }
  }

  /** Decoding works token by token, whatever follows. */
  lemma {:induction false} DecodeRenderAppend(ts: seq<Token>, rest: seq<byte>)
    requires ValidTokens(ts)
    ensures Decode(Render(ts) + rest).Some? <==> Decode(rest).Some?
    ensures Decode(rest).Some? ==> Decode(Render(ts) + rest).value == Meaning(ts) + Decode(rest).value
  {
    if ts == [] {
      assert Render(ts) + rest == rest;
      assert Decode(rest).Some? ==> Meaning(ts) + Decode(rest).value == Decode(rest).value;
    } else {
      var tail := Render(ts[1..]) + rest;
      assert Render(ts) + rest == RenderToken(ts[0]) + tail;
      DecodeToken(ts[0], tail);
      DecodeRenderAppend(ts[1..], rest);
      if Decode(rest).Some? {
        assert [TokenMeaning(ts[0])] + (Meaning(ts[1..]) + Decode(rest).value) == Meaning(ts) + Decode(rest).value;
      }
    }
  }

  lemma {:induction false} DecodeToken(t: Token, tail: seq<byte>)
    requires ValidToken(t)
    ensures Decode(RenderToken(t) + tail) == Prepend(TokenMeaning(t), Decode(tail))
  {
    var s := RenderToken(t) + tail;
    assert s[|RenderToken(t)|..] == tail;
  }

  /** Every string is cut by the scan into tokens and a rest that is empty or an escape that cannot be decoded. */
  lemma {:induction false} Scan(s: seq<byte>) returns (ts: seq<Token>, rest: seq<byte>)
    ensures ValidTokens(ts) && s == Render(ts) + rest
    ensures rest == [] || (rest[0] == PERCENT && !StartsEscape(rest))
  {
    if s == [] || (s[0] == PERCENT && !StartsEscape(s)) {
      ts, rest := [], s;
    } else {
      var t := if s[0] != PERCENT then Plain(s[0]) else Escaped(s[1], s[2]);
      var n := |RenderToken(t)|;
      var us;
      us, rest := Scan(s[n..]);
      ts := [t] + us;
      assert ts[1..] == us;
      assert s == RenderToken(t) + s[n..];
    }
  }

  /** Decoding fails exactly when the scan meets a '%' that two hexadecimal digits do not follow. */
  lemma {:induction false} DecodeFailsExactly(s: seq<byte>)
    ensures Decode(s).None? <==>
      exists ts: seq<Token>, rest: seq<byte> ::
        ValidTokens(ts) && s == Render(ts) + rest && rest != [] && rest[0] == PERCENT && !StartsEscape(rest)
  {
    if Decode(s).None? {
      var ts, rest := Scan(s);
      if rest == [] {
        DecodeRenderAppend(ts, rest);
      }
    }
    forall ts: seq<Token>, rest: seq<byte> |
      ValidTokens(ts) && s == Render(ts) + rest && rest != [] && rest[0] == PERCENT && !StartsEscape(rest)
      ensures Decode(s).None?
    {
      DecodeRenderAppend(ts, rest);
    }
  }

  // ----- an encoder

  /** The two spellings of a hexadecimal digit. */
  predicate Spells(c: byte, v: nat) {
    && v < 16
    && (c as char == "0123456789abcdef"[v] || c as char == "0123456789ABCDEF"[v])
  }

  /** One byte as it is, unless it is a percent sign, or a percent sign and the digits of b / 16 and b % 16. */
  predicate Writes(text: seq<byte>, b: byte) {
    || (text == [b] && b as char != '%')
    || (|text| == 3 && text[0] as char == '%' && Spells(text[1], b / 16) && Spells(text[2], b % 16))
  }

  function Joined(texts: seq<seq<byte>>): seq<byte> {
    if texts == [] then [] else texts[0] + Joined(texts[1..])
  }

  lemma SpelledDigit(c: byte, v: nat)
    requires Spells(c, v)
    ensures IsHexCode(c) && HexCodeValue(c) == v
  {
    assert "0123456789abcdef"[v] as nat == if v < 10 then 48 + v else 87 + v;
    assert "0123456789ABCDEF"[v] as nat == if v < 10 then 48 + v else 55 + v;
  }

  lemma {:induction false} DecodeWritten(text: seq<byte>, b: byte, tail: seq<byte>)
    requires Writes(text, b)
    ensures Decode(text + tail) == Prepend(b, Decode(tail))
  {
    if text == [b] {
      DecodeToken(Plain(b), tail);
    } else {
      SpelledDigit(text[1], b / 16);
      SpelledDigit(text[2], b % 16);
      var t := Escaped(text[1], text[2]);
      assert text == RenderToken(t);
      DecodeToken(t, tail);
    }
  }

  /** Whatever an encoder escapes, and in whichever case, its bytes come back. */
  lemma {:induction false} DecodeEncoded(texts: seq<seq<byte>>, bytes: seq<byte>)
    requires |texts| == |bytes| && forall i :: 0 <= i < |bytes| ==> Writes(texts[i], bytes[i])
    ensures Decode(Joined(texts)) == Some(bytes)
  {
    if texts != [] {
      DecodeEncoded(texts[1..], bytes[1..]);
      DecodeWritten(texts[0], bytes[0], Joined(texts[1..]));
      assert bytes == [bytes[0]] + bytes[1..];
    }
  }

  lemma {:induction false} DecodeShrinks(s: seq<byte>)
    ensures Decode(s).Some? ==> |Decode(s).value| <= |s|
  {
    var ts, rest := Scan(s);
    DecodeRenderAppend(ts, rest);
    RenderLength(ts);
  }

  lemma {:induction false} RenderLength(ts: seq<Token>)
    ensures |ts| <= |Render(ts)|
  {
    if ts != [] {
      RenderLength(ts[1..]);
    }
  }

  // ----- the routine

  /** Length of the C string that starts a buffer. */
  function StrLen(s: seq<byte>): (n: nat)
    requires 0 in s
    ensures n < |s| && s[n] == 0 && 0 !in s[..n]
  {
    if s[0] == 0 then 0 else 1 + StrLen(s[1..])
  }

  /** After reading `i` bytes of `s` the routine has stored `done`: only the rest of `s` is still to be decoded. */
  ghost predicate Stored(s: seq<byte>, i: nat, done: seq<byte>)
    requires i <= |s|
  {
    Decode(s) == if Decode(s[i..]).Some? then Some(done + Decode(s[i..]).value) else None
  }

  lemma StoreByte(s: seq<byte>, i: nat, done: seq<byte>)
    requires i < |s| && Stored(s, i, done) && s[i] != PERCENT
    ensures Stored(s, i + 1, done + [s[i]])
  {
    assert s[i..][1..] == s[i + 1..];
    var rest := Decode(s[i + 1..]);
    if rest.Some? {
      assert done + ([s[i]] + rest.value) == done + [s[i]] + rest.value;
    }
  }

  lemma StoreEscape(s: seq<byte>, i: nat, done: seq<byte>)
    requires i + 2 < |s| && Stored(s, i, done) && StartsEscape(s[i..])
    ensures Stored(s, i + 3, done + [EscapeValue(s[i + 1], s[i + 2])])
  {
    assert s[i..][3..] == s[i + 3..];
    var b := EscapeValue(s[i + 1], s[i + 2]);
    var rest := Decode(s[i + 3..]);
    if rest.Some? {
      assert done + ([b] + rest.value) == done + [b] + rest.value;
    }
  }

  lemma StoreNothing(s: seq<byte>)
    ensures Stored(s, 0, [])
  {
    assert s[0..] == s;
    assert Decode(s).Some? ==> [] + Decode(s).value == Decode(s).value;
  }

  lemma {:induction false} StoreAll(s: seq<byte>, done: seq<byte>)
    requires Stored(s, |s|, done)
    ensures Decode(s) == Some(done)
  {
    assert done + [] == done;
  }

  method UrlDecode(p: array<byte>) returns (r: int)
    requires 0 in p[..]
    modifies p
    ensures var s := old(p[..StrLen(p[..])]);
      match Decode(s)
      case None => r == -1
      case Some(d) => r == |d| <= |s| && p[..r] == d && p[r] == 0
    ensures forall k :: old(StrLen(p[..])) < k < p.Length ==> p[k] == old(p[k])
    ensures r >= 0 ==> forall k :: r < k < p.Length ==> p[k] == old(p[k])
  {
    ghost var s := p[..StrLen(p[..])];
    r := DecodeBuffer(p, s);
  }

  /** One turn of the loop: a byte or an escape is read at `i0` and written at `out`; false for a bad escape. */
  method DecodeStep(p: array<byte>, ghost s: seq<byte>, i0: nat, out: nat, ghost done0: seq<byte>)
    returns (ok: bool, i: nat, ghost done: seq<byte>)
    requires 0 !in s && out <= i0 < |s| < p.Length && Stored(s, i0, done0) && p[..out] == done0
    requires forall k :: i0 <= k <= |s| ==> p[k] == if k < |s| then s[k] else 0
    modifies p
    ensures !ok ==> Decode(s).None? && p[..] == old(p[..])
    ensures ok ==> i0 < i <= |s| && Stored(s, i, done) && p[..out + 1] == done
    ensures forall k :: 0 <= k < p.Length && k != out ==> p[k] == old(p[k])
  {
    i, done := i0, done0;
    ok := true;
    if p[i] != PERCENT {
      StoreByte(s, i, done);
      done := done + [s[i]];
      p[out] := p[i];
      i := i + 1;
    } else if IsHexCode(p[i + 1]) && IsHexCode(p[i + 2]) {
      assert i + 2 < |s|;
      StoreEscape(s, i, done);
      done := done + [EscapeValue(s[i + 1], s[i + 2])];
      p[out] := EscapeValue(p[i + 1], p[i + 2]);
      i := i + 3;
    } else {
      assert !StartsEscape(s[i..]);
      ok := false;
    }
  }

  /** The loop of `UrlDecode`, on a buffer that starts with the C string `s`. */
  method DecodeBuffer(p: array<byte>, ghost s: seq<byte>) returns (r: int)
    requires 0 !in s && |s| < p.Length && p[..|s|] == s && p[|s|] == 0
    modifies p
    ensures if Decode(s).None? then r == -1 else r == |Decode(s).value| <= |s|
    ensures r >= 0 ==> p[..r] == Decode(s).value && p[r] == 0
    ensures forall k :: (if r >= 0 then r else |s|) < k < p.Length ==> p[k] == old(p[k])
  {
    var i, out := 0, 0;
    ghost var done: seq<byte> := [];
    StoreNothing(s);
    while p[i] != 0
      invariant 0 <= out <= i <= |s|
      invariant forall k :: out <= k < p.Length ==> p[k] == old(p[k])
      invariant p[i] == if i < |s| then s[i] else 0
      invariant p[..out] == done && Stored(s, i, done)
      decreases |s| - i
    {
      var ok;
      ok, i, done := DecodeStep(p, s, i, out, done);
      if !ok {
        return -1;
      }
      out := out + 1;
    }
    StoreAll(s, done);
    p[out] := 0;
    assert p[..out] == done;
    r := out;
  }
}
