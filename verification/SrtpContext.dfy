/** The context of one call, as the program keeps it: counters and tables updated in place by
    each packet. Every method is proved to be the function of the same name in `Srtp`. */
module SrtpContext {
  import opened Bytes
  import opened ReplayWindow
  import opened SourceTable
  import S = Srtp

  class SrtpContext {
    const keys: S.Keys
    var tx: S.SendState
    var rx: seq<Source<S.RecvState>>
    var srtcpIndex: u32
    var rtcpRx: seq<Source<Window>>

    constructor (keys: S.Keys)
      ensures this.keys == keys && Valid()
      ensures tx == S.FRESH_SENDER && rx == [] && srtcpIndex == 0 && rtcpRx == []
    {
      this.keys := keys;
      tx := S.FRESH_SENDER;
      rx := [];
      srtcpIndex := 0;
      rtcpRx := [];
    }

    ghost predicate Valid()
      reads this
    {
      srtcpIndex < S.TWO31
    }

    method ProtectRtp(packet: seq<byte>) returns (result: S.Result<seq<byte>>)
      requires Valid()
      modifies this`tx
      ensures Valid()
      ensures (tx, result) == S.ProtectRtp(keys, old(tx), packet)
    {
      if |packet| < 12 {
        return S.Err(S.TooShort);
      }
      var headerLen := S.RtpHeaderLen(packet);
      if headerLen.None? {
        return S.Err(S.Truncated);
      }
      var s, ssrc := S.SeqOf(packet), S.SsrcOf(packet);
      if !tx.initialized {
        tx := tx.(initialized := true);
      } else if s == 0 && tx.sl == 0xFFFF {
        tx := tx.(roc := (tx.roc + 1) % TWO32);
      }
      tx := tx.(sl := s);
      var iv := BuildIv(keys.rtpSalt, ssrc, tx.roc, s);
      var output := S.ApplyKeystream(packet, headerLen.value, keys.rtpKeystream, iv);
      return S.Ok(output + keys.rtpTag(output, tx.roc));
    }

    method UnprotectRtp(packet: seq<byte>) returns (result: S.Result<seq<byte>>)
      requires Valid()
      modifies this`rx
      ensures Valid()
      ensures (rx, result) == S.UnprotectRtp(keys, old(rx), packet)
    {
      if |packet| < 12 + S.AUTH_TAG_LEN {
        return S.Err(S.TooShort);
      }
      var boundary := |packet| - S.AUTH_TAG_LEN;
      var portion, received := packet[..boundary], packet[boundary..];
      var headerLen := S.RtpHeaderLen(portion);
      if headerLen.None? {
        return S.Err(S.Truncated);
      }
      var s, ssrc := S.SeqOf(packet), S.SsrcOf(packet);
      var position := FindSource(rx, ssrc);
      if position.None? && |rx| >= MAX_RX_SOURCES {
        return S.Err(S.TooManySources);
      }
      var state := if position.Some? then rx[position.value].state else S.NEW_SOURCE;
      var estimated := state.EstimateRoc(s);
      if keys.rtpTag(portion, estimated) != received {
        return S.Err(S.AuthenticationFailed);
      }
      var index := S.PacketIndex(estimated, s);
      if !state.window.Admits(index) {
        return S.Err(S.Replay);
      }
      if state.window.highest.None? || index > state.window.highest.value {
        state := state.(roc := estimated, sl := s);
      }
      state := state.(window := state.window.Accept(index));
      RememberSource(position, Source(ssrc, state));
      var iv := BuildIv(keys.rtpSalt, ssrc, estimated, s);
      return S.Ok(S.ApplyKeystream(portion, headerLen.value, keys.rtpKeystream, iv));
    }

    method RememberSource(position: Option<nat>, source: Source<S.RecvState>)
      requires position == Position(rx, source.ssrc)
      modifies this`rx
      ensures rx == Remember(old(rx), source)
    {
      match position
      case Some(i) => rx := rx[i := source];
      case None => rx := rx + [source];
    }

    method ProtectRtcp(packet: seq<byte>) returns (result: S.Result<seq<byte>>)
      requires Valid()
      modifies this`srtcpIndex
      ensures Valid()
      ensures (srtcpIndex, result) == S.ProtectRtcp(keys, old(srtcpIndex), packet)
    {
      if |packet| < 8 {
        return S.Err(S.TooShort);
      }
      var ssrc := S.RtcpSsrcOf(packet);
      var index := srtcpIndex;
      srtcpIndex := (srtcpIndex + 1) % TWO32 % S.TWO31;
      var iv := BuildRtcpIv(keys.rtcpSalt, ssrc, index);
      var output := S.ApplyKeystream(packet, 8, keys.rtcpKeystream, iv) + ToBe32(index + S.TWO31);
      return S.Ok(output + keys.rtcpTag(output));
    }

    method UnprotectRtcp(packet: seq<byte>) returns (result: S.Result<seq<byte>>)
      requires Valid()
      modifies this`rtcpRx
      ensures Valid()
      ensures (rtcpRx, result) == S.UnprotectRtcp(keys, old(rtcpRx), packet)
    {
      if |packet| < 8 + 4 + S.AUTH_TAG_LEN {
        return S.Err(S.TooShort);
      }
      var boundary := |packet| - S.AUTH_TAG_LEN;
      var portion, received := packet[..boundary], packet[boundary..];
      if keys.rtcpTag(portion) != received {
        return S.Err(S.AuthenticationFailed);
      }
      var index := S.RtcpTrailer(packet) % S.TWO31;
      var ssrc := S.RtcpSsrcOf(packet);
      var position := FindSource(rtcpRx, ssrc);
      if position.None? && |rtcpRx| >= MAX_RX_SOURCES {
        return S.Err(S.TooManySources);
      }
      var window := if position.Some? then rtcpRx[position.value].state else EMPTY;
      if !window.Admits(index) {
        return S.Err(S.Replay);
      }
      window := window.Accept(index);
      match position {
        case Some(i) => rtcpRx := rtcpRx[i := Source(ssrc, window)];
        case None => rtcpRx := rtcpRx + [Source(ssrc, window)];
      }
      var output := OpenRtcp(packet);
      return S.Ok(output);
    }

    /** Strip the trailer and, when the E flag is set and there is a body, decrypt it. */
    method OpenRtcp(packet: seq<byte>) returns (output: seq<byte>)
      requires |packet| >= 8 + 4 + S.AUTH_TAG_LEN
      ensures output == S.OpenedRtcp(keys, packet)
    {
      var trailer := S.RtcpTrailer(packet);
      output := packet[..|packet| - S.AUTH_TAG_LEN - 4];
      if trailer >= S.TWO31 && |output| > 8 {
        var iv := BuildRtcpIv(keys.rtcpSalt, S.RtcpSsrcOf(packet), trailer % S.TWO31);
        output := S.ApplyKeystream(output, 8, keys.rtcpKeystream, iv);
      }
    }
  }

  /** The first entry for `ssrc`, by a walk over the table. */
  method FindSource<T>(table: seq<Source<T>>, ssrc: u32) returns (position: Option<nat>)
    ensures position == Position(table, ssrc)
  {
    var i := 0;
    while i < |table|
      invariant i <= |table|
      invariant forall j :: 0 <= j < i ==> table[j].ssrc != ssrc
    {
      if table[i].ssrc == ssrc {
        PositionIs(table, ssrc, i);
        return Some(i);
      }
      i := i + 1;
    }
    NoPosition(table, ssrc);
    return None;
  }

  /** Mix the salt into the first 14 bytes of `iv`, in place. */
  method MixSalt(iv: array<byte>, salt: S.Salt)
    requires iv.Length == 16
    modifies iv
    ensures iv[..] == S.XorSalt(old(iv[..]), salt)
  {
    ghost var block := iv[..];
    for i := 0 to S.SESSION_SALT_LEN
      invariant forall j :: 0 <= j < 16 ==> iv[j] == if j < i then XorByte(block[j], salt[j]) else block[j]
    {
      iv[i] := XorByte(iv[i], salt[i]);
    }
    assert iv[..] == S.XorSalt(block, salt);
  }

  method BuildIv(salt: S.Salt, ssrc: u32, roc: u32, s: u16) returns (iv: S.Iv)
    ensures iv == S.RtpIv(salt, ssrc, roc, s)
  {
    var block: seq<byte> := [0, 0, 0, 0] + ToBe32(ssrc) + ToBe32(roc) + ToBe16(s) + [0, 0];
    var buffer := new byte[16](i requires 0 <= i < 16 => block[i]);
    assert buffer[..] == block;
    MixSalt(buffer, salt);
    iv := buffer[..];
  }

  method BuildRtcpIv(salt: S.Salt, ssrc: u32, index: u32) returns (iv: S.Iv)
    ensures iv == S.RtcpIv(salt, ssrc, index)
  {
    var block: seq<byte> := [0, 0, 0, 0] + ToBe32(ssrc) + [0, 0] + ToBe32(index) + [0, 0];
    var buffer := new byte[16](i requires 0 <= i < 16 => block[i]);
    assert buffer[..] == block;
    MixSalt(buffer, salt);
    iv := buffer[..];
  }
}
