/**
 The server side of the opening handshake (RFC 6455 section 4.2.2), as
 `WebsocketServer::sendHandshakeHeaders` performs it once a request has been
 read: find the `Sec-WebSocket-Key` header with the pattern
 `#Sec-WebSocket-Key: (.*)\r\n#`, derive the accept token, and assemble the
 five-line `101 Switching Protocols` response.

 SHA-1 and base64 are library calls whose internals are not modelled: they
 are handed in as the two functions of a `Crypto` value.
 */
module Handshake {
  import opened Php
  import Frames

  /** Raw SHA-1 digest (`pack('H*', sha1(...))`) and base64 encoding. */
  datatype Crypto = Crypto(sha1: string -> Frames.Bytes, base64: Frames.Bytes -> string)

  const KeyHeader: string := "Sec-WebSocket-Key: "

  /** The fixed GUID of RFC 6455 section 1.3. */
  const Guid: string := "258EAFA5-E914-47DA-95CA-C5AB0DC85B11"

  /** Everything of the response before the accept token. */
  const ResponseHead: string :=
    "HTTP/1.1 101 Switching Protocols\r\n"
    + "Upgrade: websocket\r\n"
    + "Connection: Upgrade\r\n"
    + "Sec-WebSocket-Version: 13\r\n"
    + "Sec-WebSocket-Accept: "

  // ---------------------------------------------------------------------------
  // What the pattern `<name>(.*)\r\n` matches

  ghost predicate OccursAt(text: string, name: string, i: int)
  {
    0 <= i && i + |name| <= |text| && text[i .. i + |name|] == name
  }

  /**
   `.*` followed by `\r\n`, starting at `s`, can end at `e`: `text[e..e+2]` is
   CRLF and no newline lies in between (`.` does not match a newline).
   */
  ghost predicate LineEndsAt(text: string, s: int, e: int)
  {
    && 0 <= s <= e && e + 1 < |text|
    && text[e] == '\r' && text[e + 1] == '\n'
    && forall m :: s <= m < e ==> text[m] != '\n'
  }

  /** The whole pattern matches starting at `i`, its group ending at `e`. */
  ghost predicate MatchAt(text: string, name: string, i: int, e: int)
  {
    OccursAt(text, name, i) && LineEndsAt(text, i + |name|, e)
  }

  /** A group that starts at `s` can end in only one place, so greediness never matters. */
  lemma LineEndUnique(text: string, s: int, e1: int, e2: int)
    requires LineEndsAt(text, s, e1) && LineEndsAt(text, s, e2)
    ensures e1 == e2
  {
  }

  /** Scans from `m` for the first newline and checks that a CR precedes it. */
  function LineEnd(text: string, s: nat, m: nat): (r: Option<nat>)
    requires s <= m <= |text|
    requires forall k :: s <= k < m ==> text[k] != '\n'
    ensures r.Some? ==> LineEndsAt(text, s, r.value)
    ensures r.None? ==> forall e :: !LineEndsAt(text, s, e)
    decreases |text| - m
  {
    if m == |text| then None
    else if text[m] == '\n' then
      if s < m && text[m - 1] == '\r' then Some(m - 1)
      else None
    else LineEnd(text, s, m + 1)
  }

  /** Tries start positions from `i` on, leftmost first, as PCRE does. */
  function Search(text: string, name: string, i: nat): (r: Option<(nat, nat)>)
    requires i <= |text|
    requires forall j, e :: j < i ==> !MatchAt(text, name, j, e)
    ensures r.Some? ==> MatchAt(text, name, r.value.0, r.value.1)
    ensures r.Some? ==> forall j, e :: j < r.value.0 ==> !MatchAt(text, name, j, e)
    ensures r.None? ==> forall j, e :: !MatchAt(text, name, j, e)
    decreases |text| - i
  {
    if i + |name| + 2 > |text| then None
    else if text[i .. i + |name|] == name then
      match LineEnd(text, i + |name|, i + |name|)
      case Some(e) => Some((i, e))
      case None => Search(text, name, i + 1)
    else Search(text, name, i + 1)
  }

  /** Start of the leftmost match and end of its group. */
  function FirstMatch(name: string, text: string): (r: Option<(nat, nat)>)
    ensures r.Some? ==> MatchAt(text, name, r.value.0, r.value.1)
    ensures r.Some? ==> forall j, e :: j < r.value.0 ==> !MatchAt(text, name, j, e)
    ensures r.None? ==> forall j, e :: !MatchAt(text, name, j, e)
  {
    Search(text, name, 0)
  }

  /**
   `preg_match('#<name>(.*)\r\n#', $text, $matches)` followed by `$matches[1]`:
   the text between the leftmost occurrence of `name` that is followed by a
   CRLF-terminated line and that CRLF, or `None` when nothing matches.
   `HeaderValueIsLeftmostMatch` states this in terms of `MatchAt`.
   */
  function HeaderValue(name: string, text: string): (r: Option<string>)
    ensures r.Some? ==> forall m :: 0 <= m < |r.value| ==> r.value[m] != '\n'
  {
    match FirstMatch(name, text)
    case None => None
    case Some((i, e)) =>
      var v := text[i + |name| .. e];
      assert forall m :: 0 <= m < |v| ==> v[m] == text[i + |name| + m];
      Some(v)
  }

  /** The header value exists iff the pattern matches, and is the group of the leftmost match. */
  lemma HeaderValueIsLeftmostMatch(name: string, text: string)
    ensures HeaderValue(name, text).Some? <==> exists i, e :: MatchAt(text, name, i, e)
    ensures HeaderValue(name, text).Some? ==>
              exists i, e :: && MatchAt(text, name, i, e)
                             && HeaderValue(name, text).value == text[i + |name| .. e]
                             && forall j, e' :: j < i ==> !MatchAt(text, name, j, e')
  {
    match FirstMatch(name, text) {
      case None =>
      case Some((i, e)) =>
        assert MatchAt(text, name, i, e);
    }
  }

  /** A line `name value CRLF` at the very start is found, whatever follows. */
  lemma HeaderValueAtStart(name: string, value: string, rest: string)
    requires forall m :: 0 <= m < |value| ==> value[m] != '\n'
    ensures HeaderValue(name, name + value + "\r\n" + rest) == Some(value)
  {
    var text := name + value + "\r\n" + rest;
    var e := |name| + |value|;
    assert text[..|name|] == name;
    assert text[|name| .. e] == value;
    assert forall m :: |name| <= m < e ==> text[m] == value[m - |name|];
    assert MatchAt(text, name, 0, e);
    var (i, e') := FirstMatch(name, text).value;
    assert i == 0;
    LineEndUnique(text, |name|, e, e');
  }

  /** Shifting text right by `pre` shifts every match by the same amount. */
  lemma MatchShift(name: string, pre: string, text: string, i: int, e: int)
    requires 0 <= i
    ensures MatchAt(pre + text, name, |pre| + i, |pre| + e) <==> MatchAt(text, name, i, e)
  {
    var whole, n := pre + text, |pre|;
    if i + |name| <= |text| {
      assert whole[n + i .. n + i + |name|] == text[i .. i + |name|];
    }
    if i + |name| <= e < |text| {
      assert forall m :: i + |name| <= m < e ==> whole[n + m] == text[m];
      assert forall m :: n + i + |name| <= m < n + e ==> whole[m] == text[m - n];
    }
  }

  /** The leftmost match in `pre + text`, when no match begins in `pre`, is the leftmost match in `text`, shifted. */
  lemma LeftmostAfter(name: string, pre: string, text: string, i1: int, e1: int, i: int, e: int)
    requires forall j, e' :: 0 <= j < |pre| ==> !MatchAt(pre + text, name, j, e')
    requires MatchAt(pre + text, name, i1, e1) && forall j, e' :: j < i1 ==> !MatchAt(pre + text, name, j, e')
    requires MatchAt(text, name, i, e) && forall j, e' :: j < i ==> !MatchAt(text, name, j, e')
    ensures i1 == |pre| + i && e1 == |pre| + e
  {
    var n := |pre|;
    assert n <= i1;
    MatchShift(name, pre, text, i1 - n, e1 - n);
    MatchShift(name, pre, text, i, e);
    LineEndUnique(text, i + |name|, e, e1 - n);
  }

  /**
   Text in which no match begins may precede the rest of a request without
   changing the captured value: PCRE moves on to the first match after it.
   */
  lemma HeaderValueAfter(name: string, pre: string, text: string)
    requires forall j, e :: 0 <= j < |pre| ==> !MatchAt(pre + text, name, j, e)
    ensures HeaderValue(name, pre + text) == HeaderValue(name, text)
  {
    var whole, n := pre + text, |pre|;
    var m1, m2 := FirstMatch(name, whole), FirstMatch(name, text);
    if m1.Some? {
      var (i1, e1) := m1.value;
      assert n <= i1;
      MatchShift(name, pre, text, i1 - n, e1 - n);
      assert m2.Some?;
      var (i, e) := m2.value;
      LeftmostAfter(name, pre, text, i1, e1, i, e);
      assert whole[i1 + |name| .. e1] == text[i + |name| .. e];
    } else if m2.Some? {
      var (i, e) := m2.value;
      MatchShift(name, pre, text, i, e);
    }
  }

  // ---------------------------------------------------------------------------
  // The response

  /**
   The key the server hashes: the header's value, or the empty string when the
   header is missing (`$matches[1]` is then `null`, which concatenates as "").
   */
  function RequestKey(request: string): string
  {
    match HeaderValue(KeyHeader, request)
    case Some(k) => k
    case None => ""
  }

  /** base64 of the raw SHA-1 digest of the key followed by the GUID. */
  function AcceptToken(crypto: Crypto, key: string): string
  {
    crypto.base64(crypto.sha1(key + Guid))
  }

  /** The five header lines and the blank line that ends them. */
  function Response(token: string): (r: string)
    ensures |r| == |ResponseHead| + |token| + 4
    ensures r[..34] == "HTTP/1.1 101 Switching Protocols\r\n"
    ensures r[34..54] == "Upgrade: websocket\r\n"
    ensures r[54..75] == "Connection: Upgrade\r\n"
    ensures r[75..102] == "Sec-WebSocket-Version: 13\r\n"
    ensures r[102..124] == "Sec-WebSocket-Accept: "
    ensures r[124 .. 124 + |token|] == token
    ensures r[|r| - 4 ..] == "\r\n\r\n"
  {
    ResponseHead + token + "\r\n\r\n"
  }

  /**
   What `sendHandshakeHeaders` writes in reply to `request`: the token of the
   captured key, or of the GUID alone when no line matches.
   */
  function HandshakeResponse(crypto: Crypto, request: string): (r: string)
    ensures HeaderValue(KeyHeader, request).Some? ==>
              r == Response(crypto.base64(crypto.sha1(HeaderValue(KeyHeader, request).value + Guid)))
    ensures HeaderValue(KeyHeader, request).None? ==> r == Response(crypto.base64(crypto.sha1(Guid)))
  {
    assert "" + Guid == Guid;
    Response(AcceptToken(crypto, RequestKey(request)))
  }

  /**
   The reply carries the token of the key on the leftmost line the pattern
   matches, wherever that line stands and whatever precedes it.
   */
  lemma HandshakeForKey(crypto: Crypto, request: string, i: int, e: int)
    requires MatchAt(request, KeyHeader, i, e)
    requires forall j, e' :: j < i ==> !MatchAt(request, KeyHeader, j, e')
    ensures HandshakeResponse(crypto, request)
            == Response(crypto.base64(crypto.sha1(request[i + |KeyHeader| .. e] + Guid)))
  {
    var (i1, e1) := FirstMatch(KeyHeader, request).value;
    assert i1 == i;
    LineEndUnique(request, i + |KeyHeader|, e, e1);
  }

  /** Without a key header the server still answers, hashing the GUID alone. */
  lemma HandshakeWithoutKey(crypto: Crypto, request: string)
    requires forall i, e :: !MatchAt(request, KeyHeader, i, e)
    ensures HandshakeResponse(crypto, request) == Response(crypto.base64(crypto.sha1(Guid)))
  {
    assert "" + Guid == Guid;
  }
}
