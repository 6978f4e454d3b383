// The address validation token of the retry handshake (main/http3/event_cb.c):
// a fixed word, the client's address, the connection ID it first used.
module Token {
  import opened Common

  const QUICHE: seq<byte> := [113, 117, 105, 99, 104, 101]

  function Mint(addr: seq<byte>, dcid: seq<byte>): seq<byte> {
    QUICHE + addr + dcid
  }

  // The connection ID in the token, if the token is for this address and the ID
  // fits in `room` bytes.
  function Validate(token: seq<byte>, addr: seq<byte>, room: nat): (odcid: Option<seq<byte>>)
    ensures odcid.Some? ==> token == Mint(addr, odcid.value) && |odcid.value| <= room
  {
    if |token| < |QUICHE| || token[..|QUICHE|] != QUICHE then None
    else
      var rest := token[|QUICHE|..];
      if |rest| < |addr| || rest[..|addr|] != addr then None
      else if room < |rest| - |addr| then None
      else
        assert token == QUICHE + rest && rest == addr + rest[|addr|..];
        Some(rest[|addr|..])
  }

  // The token minted for an address brings back the original ID at that address.
  lemma MintedValidates(addr: seq<byte>, dcid: seq<byte>, room: nat)
    ensures Validate(Mint(addr, dcid), addr, room) == if |dcid| <= room then Some(dcid) else None
  {
  }

  // Token validation accepts exactly the tokens minted for the address with an
  // ID that fits.
  lemma ValidatesExactlyMinted(token: seq<byte>, addr: seq<byte>, room: nat)
    ensures Validate(token, addr, room).Some?
       <==> exists dcid :: |dcid| <= room && token == Mint(addr, dcid)
  {
  }

  // Nothing separates address and ID, so as bytes go a token minted at one address
  // is accepted at another exactly if the second address is a prefix of the first
  // one with the ID appended.
  lemma OtherAddress(addr: seq<byte>, dcid: seq<byte>, other: seq<byte>, room: nat)
    ensures Validate(Mint(addr, dcid), other, room).Some?
       <==> other <= addr + dcid && |addr| + |dcid| - |other| <= room
  {
    var token := Mint(addr, dcid);
    assert token[..|QUICHE|] == QUICHE && token[|QUICHE|..] == addr + dcid;
  }

  // A socket address: its first two bytes, the address family, fix its length.
  predicate SocketAddress(addr: seq<byte>, lengthOf: (byte, byte) -> nat) {
    |addr| >= 2 && |addr| == lengthOf(addr[0], addr[1])
  }

  // Socket addresses are not mixed up: whatever lengths the families have, a token
  // is accepted exactly at the address it was minted for, if the ID fits.
  lemma OnlyAtItsAddress(addr: seq<byte>, dcid: seq<byte>, other: seq<byte>, room: nat,
                         lengthOf: (byte, byte) -> nat)
    requires SocketAddress(addr, lengthOf) && SocketAddress(other, lengthOf)
    ensures Validate(Mint(addr, dcid), other, room).Some? <==> other == addr && |dcid| <= room
  {
    OtherAddress(addr, dcid, other, room);
    if other <= addr + dcid {
      assert other[0] == (addr + dcid)[0] && other[1] == (addr + dcid)[1];
      assert other == (addr + dcid)[..|addr|];
    }
  }

  // mint_token: three copies into the caller's buffer.
  method MintToken(dcid: seq<byte>, addr: seq<byte>, token: array<byte>) returns (tokenLen: nat)
    requires |QUICHE| + |addr| + |dcid| <= token.Length
    modifies token
    ensures tokenLen <= token.Length && token[..tokenLen] == Mint(addr, dcid)
    ensures tokenLen == 6 + |addr| + |dcid| && token[..6] == [113, 117, 105, 99, 104, 101]
    ensures token[6..6 + |addr|] == addr && token[6 + |addr|..tokenLen] == dcid
    ensures token[tokenLen..] == old(token[tokenLen..])
  {
    CopyTo(token, 0, QUICHE);
    CopyTo(token, |QUICHE|, addr);
    var at := |QUICHE| + |addr|;
    assert token[..at] == token[..|QUICHE|] + token[|QUICHE|..at];
    CopyTo(token, at, dcid);
    tokenLen := at + |dcid|;
    assert token[..tokenLen] == token[..at] + token[at..tokenLen];
    assert forall k :: tokenLen <= k < token.Length ==> token[k] == old(token[k]);
  }

  // memcpy
  method CopyTo(buf: array<byte>, at: nat, bytes: seq<byte>)
    requires at + |bytes| <= buf.Length
    modifies buf
    ensures buf[..at] == old(buf[..at]) && buf[at..at + |bytes|] == bytes
    ensures forall k :: at + |bytes| <= k < buf.Length ==> buf[k] == old(buf[k])
  {
    forall k | at <= k < at + |bytes| {
      buf[k] := bytes[k - at];
    }
  }

  // validate_token: the cursor moves over the word, then over the address.
  method ValidateToken(token: seq<byte>, addr: seq<byte>, odcid: array<byte>) returns (ok: bool, odcidLen: nat)
    modifies odcid
    ensures ok <==> Validate(token, addr, odcid.Length).Some?
    ensures ok ==> odcidLen <= odcid.Length && Some(odcid[..odcidLen]) == Validate(token, addr, odcid.Length)
    ensures !ok ==> odcid[..] == old(odcid[..]) && odcidLen == odcid.Length
  {
    odcidLen := odcid.Length;
    var at := 0;
    if |token| - at < |QUICHE| || token[at..at + |QUICHE|] != QUICHE {
      return false, odcidLen;
    }
    at := at + |QUICHE|;
    if |token| - at < |addr| || token[at..at + |addr|] != addr {
      return false, odcidLen;
    }
    at := at + |addr|;
    if odcidLen < |token| - at {
      return false, odcidLen;
    }
    CopyTo(odcid, 0, token[at..]);
    odcidLen := |token| - at;
    ok := true;
  }
}
