/**
 Where the fields of a parsed multi-recipient message stand (sections 5.1 and 6.1 of RFC 9052):
 the bytes of a message are its fields in order, each as the encoder writes it.
 */
module MessageShape {
  import opened Wire
  import opened Cbor
  import opened CborRoundTrip
  import opened Header
  import opened CountersignAdd
  import opened Messages

  /** The fields up to the unprotected bucket: a tag, unless it is missing, the head of the array
      and the protected bucket. */
  function FrontFields(tag: Option<u64>, n: u64, prot: Bytes): (b: seq<byte>) {
    (match tag { case None => [] case Some(t) => EncodeHead(TAG, t) }) + EncodeHead(ARRAY, n) + EncodeBstr(prot)
  }

  /** A payload or ciphertext: a byte string, or null when it is detached. */
  function ContentItem(embedded: Option<Bytes>): (b: seq<byte>) {
    match embedded { case None => [0xF6] case Some(p) => EncodeBstr(p) }
  }

  /** The fields that a parsed front was read from; the unprotected bucket follows them. */
  lemma FrontShape(s: seq<byte>, tag: u64, n: nat) returns (tagged: bool, m: nat)
    requires MessageFront(s, tag, n).Ok?
    ensures var r := MessageFront(s, tag, n); var b := r.value;
      && |b.prot| <= SIZE_MAX && n < U64_BOUND && m < r.next <= |s|
      && s[..m] == FrontFields(if tagged then Some(tag) else None, n, b.prot)
      && (tagged <==> s != [] && s[0] / 32 == 6)
      && ProtectedHdr(b.prot, false).Ok? && ProtectedHdr(b.prot, false).value == b.ps
      && UnprotectedHdr(s, m, Labels(b.ps), false) == Ok(b.us, r.next)
  {
    hide DecodeHead, DecodeContainer, DecodeString, ProtectedHdr, UnprotectedHdr, EncodeHead, EncodeBstr, Labels;
    tagged := PeekType(s, 0) == TAG;
    var i := OptionalTag(s, tag).next;
    var a := DecodeArray(s, i, false);
    var p := DecodeBstr(s, a.next, false);
    m := p.next;
    if tagged {
      TagBytes(s, tag);
    }
    ContainerStands(s, i, ARRAY);
    BstrStands(s, a.next);
    Parts(s, i, a.next, m);
  }

  lemma TagBytes(s: seq<byte>, tag: u64)
    requires PeekType(s, 0) == TAG && OptionalTag(s, tag).Ok?
    ensures s[..OptionalTag(s, tag).next] == EncodeHead(TAG, tag)
  {
    hide DecodeHead, EncodeHead;
    TagStands(s, 0);
  }

  lemma Parts(s: seq<byte>, i: nat, j: nat, k: nat)
    requires i <= j <= k <= |s|
    ensures s[..k] == s[..i] + s[i..j] + s[j..k]
  {
  }

  /** The item that content was read from. */
  lemma ContentShape(s: seq<byte>, i: nat, detached: Option<seq<byte>>)
    requires ContentField(s, i, detached).Ok?
    ensures var r := ContentField(s, i, detached); var c := r.value;
      && i < r.next <= |s| && (c.embedded.Some? ==> |c.embedded.value| <= SIZE_MAX)
      && s[i..r.next] == ContentItem(c.embedded)
      && (match c.embedded { case Some(p) => c.bytes == p case None => detached == Some(c.bytes) })
  {
    hide DecodeHead, EncodeBstr;
    if s[i] == NULL_BYTE {
      NullStands(s, i);
    } else {
      BstrStands(s, i);
    }
  }

  lemma NullStands(s: seq<byte>, i: nat)
    requires DecodeHead(s, i, false).Ok? && s[i] == NULL_BYTE
    ensures DecodeHead(s, i, false).next == i + 1 && s[i..i + 1] == [0xF6]
  {
  }
}
