/**
 * The data link's own decoder, which checks a received frame a second time, and
 * how its verdict relates to the parser's.
 */
module DataLink {
  import opened Base
  import opened Crc
  import opened Frame
  import opened FrameAuth
  import opened Wire
  import Layout

  datatype Metadata = Metadata(header: Header, payloadLen: nat, scan: Scan, authenticated: bool, shouldVerify: bool)

  /** What the extensions say. */
  datatype Scan = Scan(tagLen: nat, key: u32, hasSecurity: bool, epoch: u32)

  datatype RxResult = RxOk(metadata: Metadata) | RxBad(status: Status)

  function ScanExts(b: Bytes, s: Scan, authRequired: bool, requiredKey: u32): Option<Scan>
    decreases |b|
  {
    if b == [] then Some(s)
    else match FirstExt(b)
      case None => None
      case Some((e, rest)) =>
        match ScanExt(e, s, authRequired, requiredKey)
        case None => None
        case Some(t) => ScanExts(rest, t, authRequired, requiredKey)
  }

  function ScanExt(e: Ext, s: Scan, authRequired: bool, requiredKey: u32): Option<Scan> {
    if e.kind == EXT_SECURITY then
      if SecurityTag(e).None? then None
      else if authRequired && SecurityKey(e) != requiredKey then None
      else Some(s.(tagLen := SecurityTag(e).value, key := SecurityKey(e), hasSecurity := true))
    else if e.kind == EXT_SESSION then
      if |e.value| != SESSION_VALUE_SIZE then None else Some(s.(epoch := Get32(e.value[..4])))
    else Some(s)
  }

  const NO_SCAN := Scan(0, 0, false, 0)

  /** `b` holds at least the header it announces: the parser never passes on less. */
  predicate HasItsHeader(b: Bytes) {
    |b| >= BASE_HEADER_SIZE && DecodeHeader(b).Decoded? ==> HeaderLen(b) <= |b|
  }

  function DecodeRx(b: Bytes, authRequired: bool, requiredKey: u32): RxResult
    requires HasItsHeader(b)
  {
    if |b| < BASE_HEADER_SIZE + CRC_SIZE || |b| > MAX_FRAME_SIZE then RxBad(InvalidFrame)
    else if b[0] != MAGIC_0 || b[1] != MAGIC_1 then RxBad(InvalidFrame)
    else if DecodeHeader(b).Bad? then RxBad(CrcFailed)
    else
      DecodedIsLong(b);
      var h := HeaderOf(b);
      match ScanExts(b[BASE_HEADER_SIZE..HeaderLen(b)], NO_SCAN, authRequired, requiredKey)
      case None => RxBad(InvalidFrame)
      case Some(s) =>
        if !Intact(b) then RxBad(CrcFailed)
        else if |b| != HeaderLen(b) + PayloadLen(b) + s.tagLen + CRC_SIZE then RxBad(InvalidFrame)
        else RxOk(Metadata(h, PayloadLen(b), s, Authenticated(h), Authenticated(h) || s.hasSecurity))
  }

  // ---- The loop over the extensions ----

  method DecodeExtensions(exts: Bytes, authRequired: bool, requiredKey: u32) returns (scan: Option<Scan>)
    ensures scan == ScanExts(exts, NO_SCAN, authRequired, requiredKey)
  {
    hide FirstExt, ScanExt;
    var cursor := new Cursor(exts);
    var s := NO_SCAN;
    assert exts[0..] == exts;
    while true
      invariant cursor.Inside() && cursor.bytes == exts && fresh(cursor)
      invariant ScanExts(exts, NO_SCAN, authRequired, requiredKey) == ScanExts(exts[cursor.offset..], s, authRequired, requiredKey)
      decreases |exts| - cursor.offset
    {
      ghost var left := exts[cursor.offset..];
      var ext, status := cursor.Next();
      if status == NotFound {
        return Some(s);
      }
      if status != Ok {
        return None;
      }
      var t := ScanExt(ext.value, s, authRequired, requiredKey);
      if t.None? {
        return None;
      }
      s := t.value;
    }
  }

  // ---- Parser and data link agree ----

  predicate SessionsOk(es: seq<Ext>) {
    forall i :: 0 <= i < |es| && es[i].kind == EXT_SESSION ==> |es[i].value| == SESSION_VALUE_SIZE
  }

  /** The epoch the last session extension names: the first four bytes of its value. */
  function EpochOf(es: seq<Ext>, epoch: nat): nat {
    if es == [] then epoch
    else if es[0].kind == EXT_SESSION && |es[0].value| == SESSION_VALUE_SIZE then EpochOf(es[1..], Layout.Little(es[0].value[..4]))
    else EpochOf(es[1..], epoch)
  }

  lemma SessionsCons(e: Ext, es: seq<Ext>)
    ensures SessionsOk([e] + es) <==> (e.kind == EXT_SESSION ==> |e.value| == SESSION_VALUE_SIZE) && SessionsOk(es)
  {
    var all := [e] + es;
    if SessionsOk(all) {
      forall i | 0 <= i < |es| && es[i].kind == EXT_SESSION ensures |es[i].value| == SESSION_VALUE_SIZE {
        assert all[i + 1] == es[i];
      }
      assert all[0] == e;
    }
  }

  /** Every security extension names the required key, if one is required. */
  predicate KeysOk(es: seq<Ext>, authRequired: bool, key: u32) {
    forall i :: 0 <= i < |es| && authRequired ==> NamesKey(es[i], key)
  }

  predicate NamesKey(e: Ext, key: u32) {
    e.kind == EXT_SECURITY && |e.value| == SECURITY_VALUE_SIZE ==> SecurityKey(e) == key
  }

  lemma KeysCons(e: Ext, es: seq<Ext>, authRequired: bool, key: u32)
    ensures KeysOk([e] + es, authRequired, key) <==> (authRequired ==> NamesKey(e, key)) && KeysOk(es, authRequired, key)
  {
    hide NamesKey;
    var all := [e] + es;
    if KeysOk(all, authRequired, key) && authRequired {
      forall i | 0 <= i < |es| ensures NamesKey(es[i], key) {
        assert all[i + 1] == es[i];
      }
      assert all[0] == e;
    }
  }

  /**
   * The scan succeeds exactly on extensions the parser takes, with well-sized
   * sessions and no foreign key; it finds the tag length and key announced last.
   */
  lemma {:induction false} ScanIff(b: Bytes, s: Scan, authRequired: bool, key: u32)
    ensures ScanExts(b, s, authRequired, key).Some? <==>
      ParseExts(b).Some? && TagLen(ParseExts(b).value, s.tagLen).Some?
      && SessionsOk(ParseExts(b).value) && KeysOk(ParseExts(b).value, authRequired, key)
    ensures ScanExts(b, s, authRequired, key).Some? ==>
      var t := ScanExts(b, s, authRequired, key).value;
      && t.tagLen == TagLen(ParseExts(b).value, s.tagLen).value && t.key == KeyOf(ParseExts(b).value, s.key)
      && t.epoch == EpochOf(ParseExts(b).value, s.epoch)
    decreases |b|
  {
    if b != [] && FirstExt(b).Some? {
      var (e, rest) := FirstExt(b).value;
      ScanOne(e, s, authRequired, key);
      hide FirstExt, SecurityTag, ScanExt, SecurityKey, NamesKey, Layout.Little;
      if ParseExts(rest).Some? {
        var es := ParseExts(rest).value;
        assert ([e] + es)[1..] == es && ([e] + es)[0] == e;
        SessionsCons(e, es);
        KeysCons(e, es, authRequired, key);
        hide SessionsOk, KeysOk;
      }
      if ScanExt(e, s, authRequired, key).Some? {
        ScanIff(rest, ScanExt(e, s, authRequired, key).value, authRequired, key);
      }
    }
  }

  lemma ScanOne(e: Ext, s: Scan, authRequired: bool, key: u32)
    ensures ScanExt(e, s, authRequired, key).Some? <==>
      && (e.kind == EXT_SECURITY ==> SecurityTag(e).Some? && (authRequired ==> NamesKey(e, key)))
      && (e.kind == EXT_SESSION ==> |e.value| == SESSION_VALUE_SIZE)
    ensures e.kind != EXT_SECURITY ==> NamesKey(e, key)
    ensures e.kind == EXT_SECURITY && SecurityTag(e).Some? ==> |e.value| == SECURITY_VALUE_SIZE
    ensures ScanExt(e, s, authRequired, key).Some? ==>
      var t := ScanExt(e, s, authRequired, key).value;
      && (if e.kind == EXT_SECURITY then t.tagLen == SecurityTag(e).value && t.key == SecurityKey(e)
          else t.tagLen == s.tagLen && t.key == s.key)
      && t.epoch == if e.kind == EXT_SESSION then Layout.Little(e.value[..4]) else s.epoch
  {
    if e.kind == EXT_SESSION && |e.value| == SESSION_VALUE_SIZE {
      Layout.Get32IsLittle(e.value[..4]);
    }
    hide Len, Get32, Layout.Little;
  }

  lemma TagWithoutExts(h: Header)
    ensures ExpectedTag(h, []) == Some(0) && ParseExts([]) == Some([]) && TagLen([], 0) == Some(0)
  {
  }

  /** Where the parser expects a tag length, it is the one the extensions announce. */
  lemma ExpectedIsAnnounced(h: Header, exts: Bytes)
    requires ExpectedTag(h, exts).Some?
    ensures ParseExts(exts).Some? && TagLen(ParseExts(exts).value, 0) == ExpectedTag(h, exts)
  {
    TagWithoutExts(h);
  }

  /** The extension bytes of a frame. */
  function ExtsOf(b: Bytes): Bytes
    requires BASE_HEADER_SIZE <= |b| && BASE_HEADER_SIZE <= HeaderLen(b) <= |b|
  {
    b[BASE_HEADER_SIZE..HeaderLen(b)]
  }

  /**
   * A frame the parser has accepted passes every check of the data link, except
   * the three the parser does not make: the size limit, the session extensions,
   * and, where authentication is required, the key.
   */
  lemma AcceptedDecodesIff(b: Bytes, authRequired: bool, key: u32)
    requires Accepts(b)
    ensures HasItsHeader(b) && BASE_HEADER_SIZE <= HeaderLen(b) <= |b| && ParseExts(ExtsOf(b)).Some?
    ensures DecodeRx(b, authRequired, key).RxOk? <==>
      |b| <= MAX_FRAME_SIZE && SessionsOk(ParseExts(ExtsOf(b)).value) && KeysOk(ParseExts(ExtsOf(b)).value, authRequired, key)
    ensures DecodeRx(b, authRequired, key).RxOk? ==>
      var m := DecodeRx(b, authRequired, key).metadata;
      && m.header == HeaderOf(b) && m.payloadLen == HeaderOf(b).payloadLen
      && m.scan.key == KeyOf(ParseExts(ExtsOf(b)).value, 0) && m.scan.epoch == EpochOf(ParseExts(ExtsOf(b)).value, 0)
  {
    DecodedIsLong(b);
    var exts := b[BASE_HEADER_SIZE..HeaderLen(b)];
    ExpectedIsAnnounced(HeaderOf(b), exts);
    ScanIff(exts, NO_SCAN, authRequired, key);
    hide DecodeHeader, HeaderOf, ExpectedTag, ParseExts, ScanExts, Intact, TagLen, SessionsOk, KeysOk, KeyOf;
  }

  /** And a frame the data link takes is one the parser would accept, unless it claims a tag it does not announce. */
  lemma DecodedAcceptsIff(b: Bytes, authRequired: bool, key: u32)
    requires HasItsHeader(b) && DecodeRx(b, authRequired, key).RxOk?
    ensures HeaderLen(b) >= BASE_HEADER_SIZE
    ensures Accepts(b) <==> !(HeaderLen(b) > BASE_HEADER_SIZE && Authenticated(HeaderOf(b))
                              && DecodeRx(b, authRequired, key).metadata.scan.tagLen == 0)
  {
    DecodedIsLong(b);
    var exts := b[BASE_HEADER_SIZE..HeaderLen(b)];
    ScanIff(exts, NO_SCAN, authRequired, key);
    TagWithoutExts(HeaderOf(b));
    TagWhenParsed(HeaderOf(b), exts);
    hide DecodeHeader, HeaderOf, ExpectedTag, ParseExts, ScanExts, Intact, TagLen, SessionsOk, KeysOk, KeyOf, Authenticated;
  }

  lemma TagWhenParsed(h: Header, exts: Bytes)
    ensures exts != [] && ParseExts(exts).Some? && TagLen(ParseExts(exts).value, 0).Some? ==>
      ExpectedTag(h, exts) ==
        if Authenticated(h) && TagLen(ParseExts(exts).value, 0).value == 0 then None else TagLen(ParseExts(exts).value, 0)
  {
  }
}
