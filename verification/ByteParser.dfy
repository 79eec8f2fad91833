/**
 * The parser as the code keeps it: a fixed buffer filled in place, and the
 * counters beside it.
 */
module ByteParser {
  import opened Base
  import opened Crc
  import opened Frame
  import opened Parser
  import opened Wire

  class Machine {
    const cache: array<byte>
    var state: State
    var cacheLen: nat
    var index: nat
    var expectedHeaderLen: nat
    var expectedPayloadLen: nat
    var expectedTagLen: nat

    ghost predicate Valid()
      reads this
    {
      cacheLen <= cache.Length && (state == InPayload || state == InCrc ==> cacheLen >= BASE_HEADER_SIZE)
    }

    ghost function View(): Parser
      requires Valid()
      reads this, cache
    {
      Parser(cache.Length, state, cache[..cacheLen], index, expectedHeaderLen, expectedPayloadLen, expectedTagLen)
    }

    constructor (size: nat)
      requires size >= BASE_HEADER_SIZE + CRC_SIZE
      ensures Valid() && fresh(cache) && View() == Reset(size)
    {
      cache := new byte[size];
      state, cacheLen, index := Magic, 0, 0;
      expectedHeaderLen, expectedPayloadLen, expectedTagLen := 0, 0, 0;
    }

    method Clear()
      modifies this
      ensures Valid() && View() == Reset(cache.Length)
    {
      state, cacheLen, index := Magic, 0, 0;
      expectedHeaderLen, expectedPayloadLen, expectedTagLen := 0, 0, 0;
    }

    method Store(b: byte)
      requires Valid() && cacheLen < cache.Length
      modifies this`cacheLen, cache
      ensures Valid() && View() == old(View()).(cache := old(View()).cache + [b])
    {
      cache[cacheLen] := b;
      cacheLen := cacheLen + 1;
    }

    method FeedByte(b: byte) returns (result: ParseResult)
      requires Valid()
      modifies this, cache
      ensures Valid() && Fed(View(), result) == Step(old(View()), b)
    {
      hide FeedHeader, FeedCrc;
      if cacheLen >= cache.Length {
        Clear();
        return Error;
      }
      match state {
        case Magic =>
          if b == MAGIC_0 {
            cache[0] := b;
            cacheLen, index := 1, 0;
            state := InHeader;
            assert cache[..1] == [b];
          }
          return Incomplete;
        case InHeader =>
          Store(b);
          result := AfterHeaderByte(b);
        case InPayload =>
          Store(b);
          if cacheLen - expectedHeaderLen >= expectedPayloadLen + expectedTagLen {
            state, index := InCrc, 0;
          }
          return Incomplete;
        case InCrc =>
          Store(b);
          index := index + 1;
          result := AfterCrcByte();
      }
    }

    method AfterHeaderByte(b: byte) returns (result: ParseResult)
      requires Valid() && state == InHeader && cacheLen > 0
      modifies this, cache
      ensures Valid() && Fed(View(), result) == FeedHeader(old(View()), b)
    {
      hide DecodeHeader, HeaderOf, ExpectedTag, EndHeader;
      if cacheLen == 2 && cache[1] != MAGIC_1 {
        if b == MAGIC_0 {
          cache[0] := b;
          cacheLen := 1;
          assert cache[..1] == [b];
        } else {
          Clear();
        }
        return Incomplete;
      }
      if cacheLen < BASE_HEADER_SIZE {
        return Incomplete;
      }
      ghost var bytes := cache[..cacheLen];
      assert bytes[..24] == cache[..24];
      var header := DecodeHeader(cache[..24]);
      if header.Bad? {
        Clear();
        return Error;
      }
      HeaderIsPrefix(bytes);
      expectedHeaderLen, expectedPayloadLen := Len(header.header.headerLen), header.header.payloadLen;
      if cacheLen < expectedHeaderLen {
        return Incomplete;
      }
      result := AtHeaderEnd();
    }

    method AtHeaderEnd() returns (result: ParseResult)
      requires Valid() && cacheLen >= BASE_HEADER_SIZE
      modifies this
      ensures Valid() && Fed(View(), result) == EndHeader(old(View()))
    {
      hide DecodeHeader, HeaderOf, ExpectedTag;
      ghost var bytes := cache[..cacheLen];
      HeaderIsPrefix(bytes);
      assert bytes[24..] == cache[24..cacheLen] && bytes[..24] == cache[..24];
      var tag := ValidateExtensions(HeaderOf(cache[..24]), cache[24..cacheLen]);
      if tag.None? {
        Clear();
        return Error;
      }
      if expectedHeaderLen + expectedPayloadLen + tag.value + CRC_SIZE > cache.Length {
        Clear();
        return Error;
      }
      expectedTagLen := tag.value;
      state := if expectedPayloadLen > 0 || expectedTagLen > 0 then InPayload else InCrc;
      return Incomplete;
    }

    method AfterCrcByte() returns (result: ParseResult)
      requires Valid() && state == InCrc
      modifies this
      ensures Valid() && Fed(View(), result) == FeedCrc(old(View()))
    {
      if index < CRC_SIZE {
        return Incomplete;
      }
      hide Divide, Trailer;
      ghost var bytes := cache[..cacheLen];
      var offset := cacheLen - CRC_SIZE;
      assert bytes[..offset] == cache[..offset] && bytes[offset..] == cache[offset..cacheLen];
      var crc := Crc16(cache[..offset]);
      if cache[offset..cacheLen] != Trailer(crc) {
        Clear();
        return Error;
      }
      return Complete;
    }
  }

  lemma HeaderIsPrefix(bytes: Bytes)
    requires |bytes| >= 24
    ensures DecodeHeader(bytes[..24]) == DecodeHeader(bytes) && HeaderOf(bytes[..24]) == HeaderOf(bytes)
    ensures DecodeHeader(bytes[..24]).Decoded? ==> DecodeHeader(bytes[..24]).header == HeaderOf(bytes)
  {
    assert bytes[..24][..24] == bytes[..24];
    SameHeader(bytes[..24], bytes);
    hide HeaderCrc, Trailer, Valid, Get16, Get32;
  }

  /** The tag length a scan so far leads to, with the rest of the extensions still to come. */
  function TagFrom(b: Bytes, tag: nat): Option<nat> {
    match ParseExts(b)
    case None => None
    case Some(es) => TagLen(es, tag)
  }

  lemma TagStep(b: Bytes, tag: nat)
    requires b != []
    ensures TagFrom(b, tag) ==
      match FirstExt(b)
      case None => None
      case Some((e, rest)) =>
        if e.kind != EXT_SECURITY then TagFrom(rest, tag)
        else match SecurityTag(e)
          case None => None
          case Some(t) => TagFrom(rest, t)
  {
    hide SecurityTag;
    if FirstExt(b).Some? {
      var (e, rest) := FirstExt(b).value;
      hide FirstExt, SecurityTag;
      if ParseExts(rest).Some? {
        var es := ParseExts(rest).value;
        assert ([e] + es)[1..] == es;
      }
    }
  }

  /** Walks the extensions once; a malformed one, or a missing tag, rejects the header. */
  method ValidateExtensions(h: Header, exts: Bytes) returns (tag: Option<nat>)
    ensures tag == ExpectedTag(h, exts)
  {
    if exts == [] {
      return Some(0);
    }
    hide FirstExt, SecurityTag, TagFrom;
    var cursor := new Cursor(exts);
    var found := 0;
    assert exts[0..] == exts;
    ExpectedIs(h, exts);
    while true
      invariant cursor.Inside() && cursor.bytes == exts && fresh(cursor)
      invariant TagFrom(exts, 0) == TagFrom(exts[cursor.offset..], found)
      decreases |exts| - cursor.offset
    {
      ghost var left := exts[cursor.offset..];
      ghost var offset := cursor.offset;
      var ext, status := cursor.Next();
      if status == NotFound {
        NoMoreTags(found);
        break;
      }
      TagStep(left, found);
      if status != Ok {
        return None;
      }
      ShorterRest(left);
      if ext.value.kind == EXT_SECURITY {
        var t := SecurityTag(ext.value);
        if t.None? {
          return None;
        }
        found := t.value;
      }
    }
    if Authenticated(h) && found == 0 {
      return None;
    }
    return Some(found);
  }

  lemma ShorterRest(b: Bytes)
    ensures FirstExt(b).Some? ==> |FirstExt(b).value.1| < |b|
  {
  }

  lemma NoMoreTags(tag: nat)
    ensures TagFrom([], tag) == Some(tag)
  {
  }

  lemma ExpectedIs(h: Header, exts: Bytes)
    requires exts != []
    ensures ExpectedTag(h, exts) ==
      match TagFrom(exts, 0)
      case None => None
      case Some(t) => if Authenticated(h) && t == 0 then None else Some(t)
  {
  }
}
