/** The TLS ClientHello parser of upstream/nfq/protocol.c. Offsets count from the start of the record. */
module Tls {
  import opened Wire

  datatype Option<T> = None | Some(value: T)

  /** Where an extension's data are. */
  datatype Extension = Extension(off: nat, len: nat)

  function TlsRecordLen(data: seq<Byte>): (n: nat)
    requires |data| >= 5
    ensures n >= 5
  {
    U16At(data, 3) + 5
  }

  predicate IsTlsClientHello(data: seq<Byte>, partialIsOk: bool) {
    && |data| >= 6 && data[0] == 0x16 && data[1] == 0x03 && data[2] <= 0x03 && data[5] == 0x01
    && (partialIsOk || TlsRecordLen(data) <= |data|)
  }

  predicate IsTlsRecordFull(data: seq<Byte>)
    requires |data| >= 5
  {
    TlsRecordLen(data) <= |data|
  }

  /** IsTLSHandshakeFull, of the handshake message in the record. */
  predicate IsHandshakeFull(rec: seq<Byte>)
    requires |rec| >= 9
  {
    4 + U24At(rec, 6) <= |rec| - 5
  }

  /** TLSFindExtLen: past the session id, the cipher suites and the compression methods. */
  function ExtLenOffset(data: seq<Byte>): (off: Option<nat>)
    ensures off.Some? ==> 43 < off.value && off.value + 2 <= |data|
  {
    if |data| < 44 then None else
    var l1 := 44 + data[43] as nat;
    if |data| < l1 + 2 then None else
    var l2 := l1 + U16At(data, l1) + 2;
    if |data| < l2 + 1 then None else
    var l3 := l2 + data[l2] as nat + 1;
    if |data| < l3 + 2 then None else Some(l3)
  }

  /** The search through l bytes of extensions at p. */
  ghost function Walk(data: seq<Byte>, p: nat, l: nat, type_: nat): (ext: Option<Extension>)
    requires p + l <= |data|
    ensures ext.Some? ==> p + 4 <= ext.value.off && ext.value.off + ext.value.len <= p + l
    decreases l
  {
    if l < 4 then None else
    var etype, elen := U16At(data, p), U16At(data, p + 2);
    if l - 4 < elen then None
    else if etype == type_ then Some(Extension(p + 4, elen))
    else Walk(data, p + 4 + elen, l - 4 - elen, type_)
  }

  /** The loop of TLSFindExtInHandshake. */
  method FindInExtensions(data: seq<Byte>, p0: nat, l0: nat, type_: nat) returns (ext: Option<Extension>)
    requires p0 + l0 <= |data|
    ensures ext == Walk(data, p0, l0, type_)
  {
    var p: nat, l: nat := p0, l0;
    while l >= 4
      invariant p + l <= |data| && Walk(data, p0, l0, type_) == Walk(data, p, l, type_)
      decreases l
    {
      var etype, elen := U16At(data, p), U16At(data, p + 2);
      if l - 4 < elen {
        return None;
      }
      if etype == type_ {
        return Some(Extension(p + 4, elen));
      }
      p, l := p + 4 + elen, l - 4 - elen;
    }
    ext := None;
  }

  /** The data of the first record. */
  function Record(data: seq<Byte>): (rec: seq<Byte>)
    requires IsTlsClientHello(data, false)
    ensures |rec| == TlsRecordLen(data) && rec <= data
  {
    data[..TlsRecordLen(data)]
  }

  /** TLSFindExt without partial messages, as a function. */
  ghost function ExtOf(data: seq<Byte>, type_: nat): (ext: Option<Extension>)
    ensures ext.Some? ==> ext.value.off + ext.value.len <= |data|
  {
    if !IsTlsClientHello(data, false) then None else
    var rec := Record(data);
    if |rec| < 9 || !IsHandshakeFull(rec) || ExtLenOffset(rec).None? then None else
    var off := ExtLenOffset(rec).value;
    if |rec| - off - 2 < U16At(rec, off) then None else Walk(rec, off + 2, U16At(rec, off), type_)
  }

  /** TLSFindExt with bPartialIsOK == false. A record too short for a handshake header cannot be
      full; the original compares its length first after reading it. */
  method FindExt(data: seq<Byte>, type_: nat) returns (ext: Option<Extension>)
    ensures ext == ExtOf(data, type_)
  {
    if !IsTlsClientHello(data, false) {
      return None;
    }
    var rec := Record(data);
    if |rec| < 9 || !IsHandshakeFull(rec) {
      return None;
    }
    var off := ExtLenOffset(rec);
    if off.None? {
      return None;
    }
    var l := U16At(rec, off.value);
    if |rec| - off.value - 2 < l {
      return None;
    }
    ext := FindInExtensions(rec, off.value + 2, l, type_);
  }

  /** TLSAdvanceToHostInSNI: the host name in the data of a server_name extension. */
  function HostInSni(data: seq<Byte>, ext: Extension): (host: Option<Extension>)
    requires ext.off + ext.len <= |data|
    ensures host.Some? ==> host.value.off == ext.off + 5 && host.value.len + 5 <= ext.len
  {
    if ext.len < 5 || data[ext.off + 2] != 0 then None else
    var slen := U16At(data, ext.off + 3);
    if slen <= ext.len - 5 then Some(Extension(ext.off + 5, slen)) else None
  }
}
