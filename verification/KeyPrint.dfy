/**
 Measuring and encoding COSE_Keys as the library does, proved against KeyWriting.dfy.
 */
module KeyPrint {
  import opened Wire
  import opened Memory
  import opened Cbor
  import opened CborRoundTrip
  import opened CborEncoder
  import opened Header
  import opened CountersignAdd
  import opened Sizes
  import opened Keys
  import opened KeyWriting
  import opened KeyStore

  // ----- Measuring -----

  /** Adds several sizes to a total, or refuses when they do not fit in a machine word. */
  predicate Added(ret: Status, before: nat, add: nat, after: nat) {
    && ret == (if before + add <= SIZE_MAX then Success else Fail(InvalidArg))
    && (ret.Success? ==> after == before + add)
  }

  /** `wolfCose_CborIntSize`. */
  method CborIntSize(n: i64) returns (len: nat)
    ensures len == IntSize(n) == |EncodeInt(n)|
  {
    if n >= 0 {
      len := CborHeadSize(n);
    } else {
      len := CborHeadSize(-(n + 1));
    }
  }

  /** `wolfCose_KeyBstrEntrySize`: a label of one byte and a byte string. */
  method KeyBstrEntrySize(payloadLen: nat, total: nat) returns (ret: Status, sum: nat)
    requires payloadLen <= SIZE_MAX && total <= SIZE_MAX
    ensures Added(ret, total, 1 + StringSize(payloadLen), sum)
  {
    hide StringSize;
    var itemLen := 0;
    ret, sum := SizeAdd(total, 1);
    if ret.Success? {
      ret, itemLen := CborStringSize(payloadLen);
    }
    if ret.Success? {
      ret, sum := SizeAdd(sum, itemLen);
    }
  }

  /** A label of one byte and a byte string behind a reserved head. */
  method ReservedEntrySize(payloadLen: nat, total: nat) returns (ret: Status, sum: nat)
    requires payloadLen <= SIZE_MAX && total <= SIZE_MAX
    ensures Added(ret, total, 1 + ReservedSize(payloadLen), sum)
  {
    var itemLen := 0;
    ret, sum := SizeAdd(total, 1);
    if ret.Success? {
      ret, itemLen := SizeAdd(if payloadLen < 256 then 2 else 3, payloadLen);
    }
    if ret.Success? {
      ret, sum := SizeAdd(sum, itemLen);
    }
  }

  /** `wolfCose_KeyCommonSize`. */
  method KeyCommonSize(key: CoseKey, kty: nat, entries: nat) returns (ret: Status, total: nat)
    requires Writable(key) && kty <= 7 && entries <= 9
    ensures Added(ret, 0, CommonSize(key, kty, entries), total)
  {
    hide StringSize, HeadSize, IntSize;
    var all := entries + (if |key.kid| > 0 then 1 else 0) + (if key.alg != 0 then 1 else 0);
    var len := CborHeadSize(all);
    ret, total := SizeAdd(0, len);
    if ret.Success? {
      ret, total := SizeAdd(total, 1);
    }
    if ret.Success? {
      len := CborHeadSize(kty);
      ret, total := SizeAdd(total, len);
    }
    if ret.Success? && |key.kid| > 0 {
      ret, total := KeyBstrEntrySize(|key.kid|, total);
    }
    if ret.Success? && key.alg != 0 {
      ret, total := SizeAdd(total, 1);
      if ret.Success? {
        len := CborIntSize(key.alg);
        ret, total := SizeAdd(total, len);
      }
    }
  }

  /** The entries of a key's type: their size on top of `total`. */
  method KeyTypeSize(crv: u64, z: Measure, total: nat) returns (ret: Status, sum: nat)
    requires Measurable(z) && total <= SIZE_MAX
    ensures Added(ret, total, TypeSize(crv, z), sum)
  {
    hide StringSize, HeadSize, ReservedSize;
    ret, sum := Success, total;
    match z
    case Ec2Size(c, emits) =>
      ret, sum := CurveEntrySize(crv, sum);
      if ret.Success? {
        ret, sum := KeyBstrEntrySize(c, sum);
      }
      if ret.Success? {
        ret, sum := KeyBstrEntrySize(c, sum);
      }
      if ret.Success? && emits {
        ret, sum := KeyBstrEntrySize(c, sum);
      }
    case RsaSize(m, e, emits) =>
      ret, sum := ReservedEntrySize(m, sum);
      if ret.Success? {
        ret, sum := KeyBstrEntrySize(e, sum);
      }
      if ret.Success? && emits {
        ret, sum := RsaPrivateSize(m, sum);
      }
    case AkpSize(n, emits) =>
      ret, sum := ReservedEntrySize(n, sum);
      if ret.Success? && emits {
        ret, sum := KeyBstrEntrySize(MLDSA_SEED_SZ, sum);
      }
    case LmsSize(n) =>
      ret, sum := KeyBstrEntrySize(n, sum);
    case OkpSize(n, emits) =>
      ret, sum := CurveEntrySize(crv, sum);
      if ret.Success? {
        ret, sum := KeyBstrEntrySize(n, sum);
      }
      if ret.Success? && emits {
        ret, sum := KeyBstrEntrySize(n, sum);
      }
    case SymmetricSize(n) =>
      ret, sum := KeyBstrEntrySize(n, sum);
  }

  method CurveEntrySize(crv: u64, total: nat) returns (ret: Status, sum: nat)
    requires total <= SIZE_MAX
    ensures Added(ret, total, 1 + HeadSize(crv), sum)
  {
    ret, sum := SizeAdd(total, 1);
    if ret.Success? {
      var len := CborHeadSize(crv);
      ret, sum := SizeAdd(sum, len);
    }
  }

  /** The private half of an RSA key: the padded exponent, and five numbers of half its width. */
  method RsaPrivateSize(modSz: nat, total: nat) returns (ret: Status, sum: nat)
    requires modSz <= SIZE_MAX && total <= SIZE_MAX
    ensures Added(ret, total, 1 + ReservedSize(modSz) + 5 * (1 + StringSize((modSz + 1) / 2)), sum)
  {
    hide StringSize, ReservedSize;
    ret, sum := ReservedEntrySize(modSz, total);
    var halfSz := (modSz + 1) / 2;
    var start := total + 1 + ReservedSize(modSz);
    var i := 0;
    while ret.Success? && i < 5
      invariant 0 <= i <= 5
      invariant ret.Success? ==> sum == start + i * (1 + StringSize(halfSz)) <= SIZE_MAX
      invariant ret.Fail? ==> ret == Fail(InvalidArg) && start + 5 * (1 + StringSize(halfSz)) > SIZE_MAX
      decreases ret.Success?, 5 - i
    {
      ret, sum := KeyBstrEntrySize(halfSz, sum);
      i := i + 1;
    }
  }

  /** `wc_CoseKey_EncodeSize_ex`. */
  method EncodeSize(key: StoredKey, w: Width, publicOnly: bool) returns (ret: Status, outLen: nat)
    requires InInt32(key.alg) && Measures(key, w)
    ensures ret == SizeQuery(key, w, publicOnly).Status()
    ensures outLen == if ret.Success? then SizeQuery(key, w, publicOnly).value else 0
  {
    hide CommonSize, TypeSize, SizeStatus, MeasureOf, Measures, Outline;
    outLen := 0;
    ret := SizeStatus(key, w, publicOnly);
    if ret.Fail? {
      return;
    }
    var total;
    var z := MeasureOf(key, w, publicOnly);
    ret, total := KeyCommonSize(Outline(key), KtyOfObject(key.obj), 1 + TypeCount(z));
    if ret.Success? {
      ret, total := KeyTypeSize(Outline(key).crv, z, total);
    }
    if ret.Success? {
      outLen := total;
    }
  }

  // ----- Encoding -----

  /** `wolfCose_FinalizeRsaBstr`: the payload stands behind three reserved bytes; a short one is
      moved down over the byte that its head does not need. */
  method FinalizeRsaBstr(buf: array<byte>, hdrPos: nat, payloadLen: nat) returns (end: nat)
    requires hdrPos + 3 + payloadLen <= buf.Length && payloadLen <= 65535
    modifies buf
    ensures var b := old(buf[hdrPos + 3..hdrPos + 3 + payloadLen]);
      && end == hdrPos + |ReservedBstr(b)| <= buf.Length
      && buf[..] == Patch(old(buf[..]), hdrPos, ReservedBstr(b))
  {
    hide Patch, ReservedBstr;
    ghost var was, b := buf[..], buf[hdrPos + 3..hdrPos + 3 + payloadLen];
    assert was[hdrPos + 3..hdrPos + 3 + payloadLen] == b;
    var head: seq<byte> := if payloadLen < 256 then [0x58, payloadLen]
                           else [0x59, payloadLen / 0x100 % 0x100, payloadLen % 0x100];
    ReservedForm(b, head);
    if payloadLen < 256 {
      MemMove(buf, hdrPos + 2, hdrPos + 3, payloadLen);
    }
    Write(buf, hdrPos, head);
    PatchInFront(was, hdrPos, head, b);
    end := hdrPos + |head| + payloadLen;
  }

  lemma ReservedForm(b: Bytes, head: seq<byte>)
    requires |b| <= 65535
    requires head == if |b| < 256 then [0x58, |b|] else [0x59, |b| / 0x100 % 0x100, |b| % 0x100]
    ensures ReservedBstr(b) == head + b
  {
  }

  /** The bytes written so far, after work behind them. */
  lemma StillWritten(was: seq<byte>, now: seq<byte>, k: nat, at: nat, b: seq<byte>, w: seq<byte>)
    requires k <= at && at + |b| <= |was| == |now| && was[k..at] == w
    requires now[..at] == was[..at] && now[at..at + |b|] == b
    ensures now[k..at + |b|] == w + b
  {
    assert now[k..at] == now[..at][k..] == was[..at][k..] == was[k..at];
    SliceSplit(now, k, at, at + |b|);
  }

  /** What was written stands where it was written. */
  lemma WrittenSlice(ctx: Encoder)
    requires ctx.Valid()
    ensures ctx.base + ctx.idx <= ctx.buf.Length && ctx.buf[..][ctx.base + ctx.from..ctx.base + ctx.idx] == ctx.written
  {
    PatchParts(ctx.was, ctx.base + ctx.from, ctx.written);
  }

  /** A large number is exported behind a reserved head: it takes three bytes more than itself
      while this is done, also where its head ends up shorter. */
  method ExportReserved(ctx: Encoder, payload: Bytes) returns (ret: Status)
    requires ctx.Valid()
    modifies ctx, ctx.buf
    ensures ctx.Valid() && ctx.from == old(ctx.from)
    ensures ret.Success? <==> 0 < |payload| <= 65535 && old(ctx.idx) + 3 + |payload| <= ctx.bufSz
    ensures ret.Success? ==> ctx.written == old(ctx.written) + ReservedBstr(payload)
                             && ctx.idx == old(ctx.idx) + |ReservedBstr(payload)|
    ensures ret.Fail? ==> ctx.idx == old(ctx.idx)
  {
    hide Patch, ReservedBstr;
    ctx.Done();
    var hdrPos := ctx.base + ctx.idx;
    if ctx.idx + 3 > ctx.bufSz {
      return Fail(BufferTooSmall);
    }
    if ctx.idx + 3 + |payload| > ctx.bufSz {
      return Fail(Crypto);
    }
    if |payload| == 0 || |payload| > 65535 {
      return Fail(BufferTooSmall);
    }
    ghost var before, k, w := ctx.buf[..], ctx.base + ctx.from, ctx.written;
    WrittenSlice(ctx);
    Write(ctx.buf, hdrPos + 3, payload);
    PatchParts(before, hdrPos + 3, payload);
    ghost var mid := ctx.buf[..];
    assert ctx.buf[hdrPos + 3..hdrPos + 3 + |payload|] == mid[hdrPos + 3..hdrPos + 3 + |payload|] == payload;
    var end := FinalizeRsaBstr(ctx.buf, hdrPos, |payload|);
    ghost var now, b := ctx.buf[..], ReservedBstr(payload);
    PatchParts(mid, hdrPos, b);
    ReservedFits(payload);
    SamePrefix(before, mid, now, hdrPos);
    StillWritten(before, now, k, hdrPos, b, w);
    ctx.idx := end - ctx.base;
    assert ctx.buf[k..end] == now[k..end];
    ctx.Rebase(b);
    return Success;
  }

  lemma ReservedFits(b: Bytes)
    ensures |ReservedBstr(b)| == ReservedSize(|b|)
  {
  }

  lemma SamePrefix(a: seq<byte>, b: seq<byte>, c: seq<byte>, n: nat)
    requires n <= |a| == |b| == |c|
    requires forall i {:trigger b[i]} {:trigger a[i]} :: 0 <= i < n ==> b[i] == a[i]
    requires forall i {:trigger c[i]} {:trigger b[i]} :: 0 <= i < n ==> c[i] == b[i]
    ensures c[..n] == a[..n]
  {
    forall i | 0 <= i < n
      ensures c[..n][i] == a[..n][i]
    {
      assert c[i] == b[i] == a[i];
    }
  }

  /** A number that was exported is moved up and padded on the left to its width. */
  method PadInPlace(buf: array<byte>, dOff: nat, len: nat, width: nat)
    requires len <= width <= SIZE_MAX && dOff + width <= buf.Length
    modifies buf
    ensures buf[..] == Patch(old(buf[..]), dOff, Padded(old(buf[dOff..dOff + len]), width))
  {
    hide Patch;
    ghost var was, raw := buf[..], buf[dOff..dOff + len];
    if len < width {
      var pad := width - len;
      MemMove(buf, dOff + pad, dOff, len);
      Zero(buf, dOff, pad);
      PatchInFront(was, dOff, Zeros(pad), raw);
    } else {
      assert Zeros(0) + raw == raw && was[dOff..dOff + len] == raw;
      PatchItself(was, dOff, raw);
    }
  }

  lemma PatchItself(a: seq<byte>, k: nat, b: seq<byte>)
    requires k + |b| <= |a| && a[k..k + |b|] == b
    ensures Patch(a, k, b) == a
  {
  }

  /** The private exponent is exported and padded; the other numbers that the export yields land
      behind it. */
  method ExportPadded(buf: array<byte>, dOff: nat, raw: Bytes, width: nat, others: seq<byte>)
    requires |raw| <= width <= SIZE_MAX && dOff + width + |others| <= buf.Length
    modifies buf
    ensures buf[..][0..dOff] == old(buf[..])[0..dOff] && buf[..][dOff..dOff + width] == Padded(raw, width)
  {
    hide Patch, Padded;
    ghost var b0 := buf[..];
    Write(buf, dOff, raw);
    ghost var b1 := buf[..];
    Write(buf, dOff + width, others);
    ghost var b2 := buf[..];
    PatchParts(b0, dOff, raw);
    PatchElsewhere(b0, dOff, raw, 0, dOff);
    PatchElsewhere(b1, dOff + width, others, 0, dOff);
    PatchElsewhere(b1, dOff + width, others, dOff, dOff + |raw|);
    assert buf[dOff..dOff + |raw|] == b2[dOff..dOff + |raw|];
    PadInPlace(buf, dOff, |raw|, width);
    PatchParts(b2, dOff, Padded(raw, width));
    PatchElsewhere(b2, dOff, Padded(raw, width), 0, dOff);
  }

  /** The private exponent behind a reserved head; the export needs room for the modulus, the
      primes and an exponent behind it, which are erased at the end. */
  method ExportExponent(ctx: Encoder, raw: Bytes, width: nat, others: seq<byte>) returns (ret: Status)
    requires ctx.Valid() && |raw| <= width <= 65535 && |others| == 8 + 2 * width
    modifies ctx, ctx.buf
    ensures ctx.Valid() && ctx.from == old(ctx.from)
    ensures ret.Success? <==> raw != [] && old(ctx.idx) + 3 + 3 * width + 8 <= ctx.bufSz
    ensures ret.Success? ==> ctx.written == old(ctx.written) + ReservedBstr(Padded(raw, width))
                             && ctx.idx == old(ctx.idx) + |ReservedBstr(Padded(raw, width))|
    ensures ret.Fail? ==> ctx.idx == old(ctx.idx)
  {
    hide Patch, ReservedBstr, Padded;
    ctx.Done();
    if ctx.idx + 3 > ctx.bufSz || ctx.idx + 3 + width + |others| > ctx.bufSz {
      return Fail(BufferTooSmall);
    }
    if |raw| == 0 {
      return Fail(BufferTooSmall);
    }
    ghost var before, k, w, b := ctx.buf[..], ctx.base + ctx.from, ctx.written, ReservedBstr(Padded(raw, width));
    WrittenSlice(ctx);
    var hdrPos := ctx.base + ctx.idx;
    var end := ExportInto(ctx.buf, hdrPos, raw, width, others);
    ghost var now := ctx.buf[..];
    StillWritten(before, now, k, hdrPos, b, w);
    ctx.idx := end - ctx.base;
    assert ctx.buf[k..end] == now[k..end];
    ctx.Rebase(b);
    return Success;
  }

  /** The same, on the array. */
  method ExportInto(buf: array<byte>, hdrPos: nat, raw: Bytes, width: nat, others: seq<byte>) returns (end: nat)
    requires |raw| <= width <= 65535 && hdrPos + 3 + width + |others| <= buf.Length
    modifies buf
    ensures var b := ReservedBstr(Padded(raw, width));
      && end == hdrPos + |b| <= hdrPos + 3 + width
      && buf[..][..hdrPos] == old(buf[..])[..hdrPos] && buf[..][hdrPos..end] == b
  {
    hide Patch, ReservedBstr, Padded;
    ghost var before := buf[..];
    var dOff := hdrPos + 3;
    ExportPadded(buf, dOff, raw, width, others);
    ghost var mid, payload := buf[..], Padded(raw, width);
    assert buf[dOff..dOff + width] == mid[dOff..dOff + width] == payload;
    end := FinalizeRsaBstr(buf, hdrPos, width);
    ghost var late, b := buf[..], ReservedBstr(payload);
    ReservedFits(payload);
    PatchParts(mid, hdrPos, b);
    PatchElsewhere(mid, hdrPos, b, 0, hdrPos);
    Zero(buf, dOff + width, |others|);
    PatchElsewhere(late, dOff + width, Zeros(|others|), 0, hdrPos);
    PatchElsewhere(late, dOff + width, Zeros(|others|), hdrPos, end);
    FrontOf(mid, before, hdrPos, dOff);
  }

  lemma FrontOf(a: seq<byte>, b: seq<byte>, n: nat, m: nat)
    requires n <= m <= |a| == |b| && a[0..m] == b[0..m]
    ensures a[0..n] == b[0..n] && a[..n] == b[..n]
  {
    SubSlice(a, 0, m, 0, n);
    SubSlice(b, 0, m, 0, n);
  }

  // ----- Entries -----

  /** The first `k` entries were written behind `w`, from index `start` on. */
  ghost predicate Put(ctx: Encoder, es: seq<KeyEntry>, k: nat, w: seq<byte>, start: nat)
    requires k <= |es|
    reads ctx
  {
    ctx.written == w + EntriesBytes(es[..k]) && ctx.idx == start + |EntriesBytes(es[..k])|
  }

  /** There is no room for all entries. */
  ghost predicate Full(ctx: Encoder, es: seq<KeyEntry>, start: nat) {
    start + |EntriesBytes(es)| > ctx.bufSz
  }

  /** One more entry, and what it takes of the room for all. */
  lemma NextEntry(es: seq<KeyEntry>, k: nat)
    requires k < |es|
    ensures EntriesBytes(es[..k + 1]) == EntriesBytes(es[..k]) + (EncodeInt(es[k].lbl) + ValueBytes(es[k].value))
    ensures |EntriesBytes(es[..k + 1])| <= |EntriesBytes(es)|
  {
    hide EncodeInt, ValueBytes, EntriesBytes;
    assert es[..k + 1] == es[..k] + [es[k]] && es == es[..k + 1] + es[k + 1..];
    EntriesJoin(es[..k], [es[k]]);
    EntriesJoin(es[..k + 1], es[k + 1..]);
    EntriesCons([es[k]]);
    assert [es[k]][1..] == [];
    NoBytes();
  }

  lemma PutBegin(ctx: Encoder, es: seq<KeyEntry>)
    ensures Put(ctx, es, 0, ctx.written, ctx.idx)
  {
    hide EntriesBytes;
    NoBytes();
    Nothing(ctx.written);
    assert es[..0] == [];
  }

  lemma PutEnd(ctx: Encoder, es: seq<KeyEntry>, w: seq<byte>, start: nat)
    requires Put(ctx, es, |es|, w, start)
    ensures ctx.written == w + EntriesBytes(es) && ctx.idx == start + |EntriesBytes(es)|
  {
    hide EntriesBytes;
    assert es[..|es|] == es;
  }

  method PutOctets(ctx: Encoder, lbl: i64, b: Bytes, ghost es: seq<KeyEntry>, ghost k: nat, ghost w: seq<byte>,
                   ghost start: nat) returns (ret: Status)
    requires ctx.Valid() && k < |es| && Put(ctx, es, k, w, start) && es[k] == KeyEntry(lbl, Octets(b))
    modifies ctx`idx, ctx`written, ctx.buf
    ensures ctx.Valid()
    ensures ret.Success? ==> Put(ctx, es, k + 1, w, start)
    ensures ret.Fail? ==> Full(ctx, es, start)
  {
    hide Encoder.Valid, EncodeInt, EncodeBstr, EntriesBytes;
    NextEntry(es, k);
    Behind(ctx.written, EncodeInt(lbl), EncodeBstr(b));
    Behind(w, EntriesBytes(es[..k]), EncodeInt(lbl) + EncodeBstr(b));
    ret := ctx.EncodeInt(lbl);
    if ret.Success? {
      ret := ctx.EncodeBstr(b);
    }
  }

  method PutNumber(ctx: Encoder, lbl: i64, n: i64, ghost es: seq<KeyEntry>, ghost k: nat, ghost w: seq<byte>,
                   ghost start: nat) returns (ret: Status)
    requires ctx.Valid() && k < |es| && Put(ctx, es, k, w, start) && es[k] == KeyEntry(lbl, Number(n))
    modifies ctx`idx, ctx`written, ctx.buf
    ensures ctx.Valid()
    ensures ret.Success? ==> Put(ctx, es, k + 1, w, start)
    ensures ret.Fail? ==> Full(ctx, es, start)
  {
    hide Encoder.Valid, EncodeInt, EntriesBytes;
    NextEntry(es, k);
    Behind(ctx.written, EncodeInt(lbl), EncodeInt(n));
    Behind(w, EntriesBytes(es[..k]), EncodeInt(lbl) + EncodeInt(n));
    ret := ctx.EncodeInt(lbl);
    if ret.Success? {
      ret := ctx.EncodeInt(n);
    }
  }

  /** A number that is exported straight into the buffer; from 256 bytes on, or with an entry
      behind it, it needs no room beyond the entries. */
  method PutReserved(ctx: Encoder, lbl: i64, b: Bytes, ghost es: seq<KeyEntry>, ghost k: nat, ghost w: seq<byte>,
                     ghost start: nat) returns (ret: Status)
    requires ctx.Valid() && k < |es| && Put(ctx, es, k, w, start) && es[k] == KeyEntry(lbl, Reserved(b))
    modifies ctx, ctx.buf
    ensures ctx.Valid() && ctx.from == old(ctx.from)
    ensures ret.Success? ==> Put(ctx, es, k + 1, w, start) && 0 < |b| <= 65535
    ensures ret.Fail? && 0 < |b| <= 65535 && (256 <= |b| || k + 1 < |es|) ==> Full(ctx, es, start)
  {
    hide Encoder.Valid, EncodeInt, EntriesBytes, ReservedBstr, ValueBytes;
    NextEntry(es, k);
    if k + 1 < |es| {
      NextEntry(es, k + 1);
      NotEmpty(es[k + 1].value);
    }
    ReservedFits(b);
    ReservedValue(b);
    Behind(ctx.written, EncodeInt(lbl), ReservedBstr(b));
    Behind(w, EntriesBytes(es[..k]), EncodeInt(lbl) + ReservedBstr(b));
    ret := ctx.EncodeInt(lbl);
    if ret.Success? {
      ret := ExportReserved(ctx, b);
    }
  }

  lemma NotEmpty(v: KeyValue)
    ensures |ValueBytes(v)| >= 1
  {
    hide EncodeInt, EncodeBstr;
  }

  lemma ReservedValue(b: Bytes)
    ensures ValueBytes(Reserved(b)) == ReservedBstr(b)
  {
  }

  /** How far the export of an exponent reaches, as the entry behind the first `k`. */
  ghost function WorkEnd(es: seq<KeyEntry>, k: nat, start: nat, width: nat): (n: nat)
    requires k <= |es|
  {
    start + |EntriesBytes(es[..k])| + ExponentRoom(width)
  }

  /** The private exponent of an RSA key. */
  method PutExponent(ctx: Encoder, raw: Bytes, width: nat, others: seq<byte>, ghost es: seq<KeyEntry>, ghost k: nat,
                     ghost w: seq<byte>, ghost start: nat) returns (ret: Status)
    requires |raw| <= width <= 65535 && |others| == 8 + 2 * width
    requires ctx.Valid() && k < |es| && Put(ctx, es, k, w, start) && es[k] == KeyEntry(Y, Reserved(Padded(raw, width)))
    modifies ctx, ctx.buf
    ensures ctx.Valid() && ctx.from == old(ctx.from)
    ensures ret.Success? ==> Put(ctx, es, k + 1, w, start) && raw != [] && WorkEnd(es, k, start, width) <= ctx.bufSz
    ensures ret.Fail? && raw != [] ==> Full(ctx, es, start) || WorkEnd(es, k, start, width) > ctx.bufSz
  {
    hide Encoder.Valid, EncodeInt, EntriesBytes, ReservedBstr, Padded;
    ghost var b := ReservedBstr(Padded(raw, width));
    YLabel();
    NextEntry(es, k);
    Behind(ctx.written, EncodeInt(Y), b);
    Behind(w, EntriesBytes(es[..k]), EncodeInt(Y) + b);
    ret := ctx.EncodeInt(Y);
    if ret.Success? {
      ret := ExportExponent(ctx, raw, width, others);
    }
  }

  lemma YLabel()
    ensures |EncodeInt(Y)| == 1
  {
  }

  /** `wolfCose_EncodeRsaMp`: one number of the private half, exported at its full width. */
  method PutRsaMp(ctx: Encoder, lbl: i64, b: Bytes, keySz: nat, ghost es: seq<KeyEntry>, ghost k: nat,
                  ghost w: seq<byte>, ghost start: nat) returns (ret: Status)
    requires keySz <= 65535
    requires ctx.Valid() && k < |es| && Put(ctx, es, k, w, start) && es[k] == KeyEntry(lbl, Octets(b))
    modifies ctx`idx, ctx`written, ctx.buf
    ensures ctx.Valid()
    ensures ret.Success? ==> Put(ctx, es, k + 1, w, start) && |b| == keySz
    ensures ret.Fail? && |b| == keySz > 0 ==> Full(ctx, es, start)
  {
    hide Encoder.Valid, EncodeInt, EncodeHead, EntriesBytes;
    NextEntry(es, k);
    if |b| <= 65535 {
      Behind(ctx.written + EncodeInt(lbl), EncodeHead(BSTR, |b|), b);
    }
    Behind(ctx.written, EncodeInt(lbl), EncodeBstr(b));
    Behind(w, EntriesBytes(es[..k]), EncodeInt(lbl) + EncodeBstr(b));
    ret := if keySz == 0 then Fail(InvalidArg) else Success;
    if ret.Success? {
      ret := ctx.EncodeInt(lbl);
    }
    if ret.Success? {
      ret := ctx.EncodeHead(BSTR, keySz);
    }
    if ret.Success? {
      if ctx.idx + keySz > ctx.bufSz {
        ret := Fail(BufferTooSmall);
      } else if |b| != keySz {
        ret := Fail(Crypto);
      } else {
        ctx.Append(b);
      }
    }
  }

  // ----- Keys -----

  /** Key type, key identifier and algorithm. */
  method EncodeCommon(ctx: Encoder, key: CoseKey, ghost es: seq<KeyEntry>, ghost w: seq<byte>, ghost start: nat)
    returns (ret: Status)
    requires Writable(key) && es == KeyEntries(key) && ctx.Valid() && Put(ctx, es, 0, w, start)
    modifies ctx`idx, ctx`written, ctx.buf
    ensures ctx.Valid()
    ensures ret.Success? ==> Put(ctx, es, |CommonEntries(key)|, w, start)
    ensures ret.Fail? ==> Full(ctx, es, start)
  {
    hide Encoder.Valid, Put, Full, TypeEntries;
    ghost var k := 1;
    ret := PutNumber(ctx, KTY, KtyOf(key.material), es, 0, w, start);
    if ret.Success? && |key.kid| > 0 {
      ret := PutOctets(ctx, KEY_KID, key.kid, es, k, w, start);
      k := k + 1;
    }
    if ret.Success? && key.alg != 0 {
      ret := PutNumber(ctx, KEY_ALG, key.alg, es, k, w, start);
      k := k + 1;
    }
  }

  /** The private half of an RSA key; `raw` and `others` are what the export yields. */
  method EncodeRsaPrivate(ctx: Encoder, p: RsaPrivate, raw: Bytes, width: nat, others: seq<byte>, ghost es: seq<KeyEntry>,
                          ghost k: nat, ghost w: seq<byte>, ghost start: nat) returns (ret: Status)
    requires |raw| <= width <= 65535 && |others| == 8 + 2 * width && p.d == Padded(raw, width)
    requires ctx.Valid() && k + 6 == |es| && es[k..] == RsaPrivateEntries(p) && Put(ctx, es, k, w, start)
    modifies ctx, ctx.buf
    ensures ctx.Valid() && ctx.from == old(ctx.from)
    ensures ret.Success? ==>
      Put(ctx, es, k + 6, w, start) && raw != [] && Halves(p, width) && WorkEnd(es, k, start, width) <= ctx.bufSz
    ensures ret.Fail? && raw != [] && Halves(p, width) && width > 0 ==>
      Full(ctx, es, start) || WorkEnd(es, k, start, width) > ctx.bufSz
  {
    hide Encoder.Valid, Put, Full, Padded, WorkEnd;
    assert forall i :: 0 <= i < 6 ==> es[k..][i] == es[k + i];
    var halfSz := (width + 1) / 2;
    ret := PutExponent(ctx, raw, width, others, es, k, w, start);
    if ret.Success? {
      ret := PutRsaMp(ctx, D, p.p, halfSz, es, k + 1, w, start);
    }
    if ret.Success? {
      ret := PutRsaMp(ctx, RSA_Q, p.q, halfSz, es, k + 2, w, start);
    }
    if ret.Success? {
      ret := PutRsaMp(ctx, RSA_DP, p.dp, halfSz, es, k + 3, w, start);
    }
    if ret.Success? {
      ret := PutRsaMp(ctx, RSA_DQ, p.dq, halfSz, es, k + 4, w, start);
    }
    if ret.Success? {
      ret := PutRsaMp(ctx, RSA_QINV, p.qi, halfSz, es, k + 5, w, start);
    }
  }

  predicate PrivateRsa(m: Material) {
    m.Rsa? && m.private.Some?
  }

  /** What the private exponent was exported as. */
  predicate Exported(m: Material, raw: Bytes, others: seq<byte>) {
    m.Rsa? && m.private.Some? ==>
      |raw| <= |m.n| && m.private.value.d == Padded(raw, |m.n|) && |others| == 8 + 2 * |m.n|
  }

  /** The entries of a key's type that has large numbers. */
  method EncodeLarge(ctx: Encoder, m: Material, raw: Bytes, others: seq<byte>, ghost es: seq<KeyEntry>, ghost k: nat,
                     ghost w: seq<byte>, ghost start: nat) returns (ret: Status)
    requires (m.Rsa? || m.Akp?) && Exported(m, raw, others)
    requires ctx.Valid() && k <= |es| && es[k..] == TypeEntries(0, m) && Put(ctx, es, k, w, start)
    modifies ctx, ctx.buf
    ensures ctx.Valid() && ctx.from == old(ctx.from)
    ensures ret.Success? ==> Put(ctx, es, |es|, w, start) && Sound(m)
    ensures ret.Success? && PrivateRsa(m) ==> raw != [] && WorkEnd(es, k + 2, start, |m.n|) <= ctx.bufSz
    ensures ret.Fail? && Sound(m) && (PrivateRsa(m) ==> raw != []) ==>
      Full(ctx, es, start) || (PrivateRsa(m) && WorkEnd(es, k + 2, start, |m.n|) > ctx.bufSz)
  {
    hide Encoder.Valid, Put, Full, Padded, Halves, WorkEnd;
    assert forall i :: 0 <= i < |es| - k ==> es[k..][i] == es[k + i];
    match m
    case Rsa(n, e, p) =>
      ret := PutReserved(ctx, CRV, n, es, k, w, start);
      if ret.Success? {
        ret := PutOctets(ctx, X, e, es, k + 1, w, start);
      }
      if ret.Success? && p.Some? {
        assert es[k + 2..] == es[k..][2..] == RsaPrivateEntries(p.value);
        ret := EncodeRsaPrivate(ctx, p.value, raw, |n|, others, es, k + 2, w, start);
      }
    case Akp(pub, seed) =>
      if |pub| < 256 || |pub| > 65535 {
        return Fail(BufferTooSmall);
      }
      ret := PutReserved(ctx, CRV, pub, es, k, w, start);
      if ret.Success? && seed.Some? {
        ret := PutOctets(ctx, X, seed.value, es, k + 1, w, start);
      }
  }

  /** The entries of the other types. */
  method EncodeSmall(ctx: Encoder, crv: u64, m: Material, ghost es: seq<KeyEntry>, ghost k: nat, ghost w: seq<byte>,
                     ghost start: nat) returns (ret: Status)
    requires !m.Rsa? && !m.Akp? && crv <= INT32_MAX
    requires ctx.Valid() && k <= |es| && es[k..] == TypeEntries(crv, m) && Put(ctx, es, k, w, start)
    modifies ctx`idx, ctx`written, ctx.buf
    ensures ctx.Valid()
    ensures ret.Success? ==> Put(ctx, es, |es|, w, start)
    ensures ret.Fail? ==> Full(ctx, es, start)
  {
    hide Encoder.Valid, Put, Full;
    assert forall i :: 0 <= i < |es| - k ==> es[k..][i] == es[k + i];
    match m
    case Ec2(x, y, d) =>
      ret := PutNumber(ctx, CRV, crv, es, k, w, start);
      if ret.Success? {
        ret := PutOctets(ctx, X, x, es, k + 1, w, start);
      }
      if ret.Success? {
        ret := PutOctets(ctx, Y, y, es, k + 2, w, start);
      }
      if ret.Success? && d.Some? {
        ret := PutOctets(ctx, D, d.value, es, k + 3, w, start);
      }
    case HssLms(pub) =>
      ret := PutOctets(ctx, CRV, pub, es, k, w, start);
    case Okp(pub, priv) =>
      ret := PutNumber(ctx, CRV, crv, es, k, w, start);
      if ret.Success? {
        ret := PutOctets(ctx, X, pub, es, k + 1, w, start);
      }
      if ret.Success? && priv.Some? {
        ret := PutOctets(ctx, D, priv.value, es, k + 2, w, start);
      }
    case Symmetric(b) =>
      ret := PutOctets(ctx, CRV, b, es, k, w, start);
  }

  /** The entries of a key behind its map head. */
  method EncodeEntries(ctx: Encoder, key: CoseKey, raw: Bytes, others: seq<byte>, ghost w: seq<byte>, ghost start: nat)
    returns (ret: Status)
    requires Writable(key) && Exported(key.material, raw, others)
    requires ctx.Valid() && Put(ctx, KeyEntries(key), 0, w, start) && start == HeadSize(|KeyEntries(key)|)
    modifies ctx, ctx.buf
    ensures ctx.Valid() && ctx.from == old(ctx.from)
    ensures ret.Success? ==> Put(ctx, KeyEntries(key), |KeyEntries(key)|, w, start)
    ensures ret.Success? ==> Sound(key.material) && (PrivateRsa(key.material) ==> raw != [] && WorkFits(key, ctx.bufSz))
    ensures ret.Fail? && Sound(key.material) && (PrivateRsa(key.material) ==> raw != []) ==>
      Full(ctx, KeyEntries(key), start) || (PrivateRsa(key.material) && !WorkFits(key, ctx.bufSz))
  {
    hide Encoder.Valid, Put, Full, CommonEntries, TypeEntries, Sound, Exported, HeadSize, WorkFits, WorkEnd;
    ghost var es, k := KeyEntries(key), |CommonEntries(key)|;
    assert es[k..] == TypeEntries(key.crv, key.material);
    ret := EncodeCommon(ctx, key, es, w, start);
    if ret.Success? {
      if key.material.Rsa? || key.material.Akp? {
        NoCurve(key.crv, key.material);
        WorkIs(key, ctx.bufSz);
        ret := EncodeLarge(ctx, key.material, raw, others, es, k, w, start);
      } else {
        SmallIsSound(key.material);
        ret := EncodeSmall(ctx, key.crv, key.material, es, k, w, start);
      }
    }
  }

  /** There is room for what is exported with a private exponent. */
  ghost predicate WorkFits(key: CoseKey, size: nat)
    requires Writable(key)
  {
    PrivateRsa(key.material) ==> BeforeExponent(key) + ExponentRoom(|key.material.n|) <= size
  }

  lemma WorkIs(key: CoseKey, size: nat)
    requires Writable(key)
    ensures PrivateRsa(key.material) ==>
      |CommonEntries(key)| + 2 <= |KeyEntries(key)|
      && (WorkFits(key, size) <==>
            WorkEnd(KeyEntries(key), |CommonEntries(key)| + 2, HeadSize(|KeyEntries(key)|), |key.material.n|) <= size)
  {
    hide CommonEntries, EntriesBytes, HeadSize, RsaPrivateEntries;
  }

  lemma SmallIsSound(m: Material)
    requires !m.Rsa? && !m.Akp?
    ensures Sound(m)
  {
  }

  lemma NoCurve(crv: u64, m: Material)
    requires crv <= INT32_MAX && (m.Rsa? || m.Akp?)
    ensures TypeEntries(crv, m) == TypeEntries(0, m)
  {
  }

  /** `wc_CoseKey_Encode_ex`; `others` are the numbers that are exported with a private exponent.
      It succeeds exactly when the key and the flags allow it and there is room, working room
      included; on failure the whole buffer is erased. */
  method EncodeKey(key: StoredKey, publicOnly: bool, others: seq<byte>, out: array<byte>) returns (ret: Status, outLen: nat)
    requires InInt32(key.alg) && (key.obj.RsaKey? ==> |others| == 8 + 2 * |key.obj.n|)
    modifies out
    ensures ret.Success? <==> Encodes(key, publicOnly, out.Length)
    ensures ret.Success? ==>
      var s := KeyBytes(Coded(key, publicOnly)); outLen == |s| <= out.Length && out[..outLen] == s
    ensures ret.Fail? ==> outLen == 0 && out[..] == Zeros(out.Length)
    ensures EncodeStatus(key, publicOnly).Fail? && !key.obj.RsaKey? && !key.obj.EdwardsKey? ==>
      ret == EncodeStatus(key, publicOnly)
  {
    hide EncodeHead, EntriesBytes, Patch, KeyEntries, Sound, EncodeStatus, RoomFor, Padded, Emits, CurveSize;
    outLen := 0;
    ret := EncodeStatus(key, publicOnly);
    if ret.Success? {
      ExportOf(key, publicOnly, others);
      var raw := if PrivateRsa(ToWrite(key, publicOnly)) then key.obj.numbers.value.d else [];
      ret, outLen := WriteKey(Coded(key, publicOnly), raw, others, out);
    }
    if ret.Fail? {
      outLen := 0;
      ghost var was := out[..];
      Zero(out, 0, out.Length);
      PatchAll(was, Zeros(out.Length));
    }
  }

  /** What is exported of the private exponent, and when. */
  lemma ExportOf(key: StoredKey, publicOnly: bool, others: seq<byte>)
    requires EncodeStatus(key, publicOnly).Success? && (key.obj.RsaKey? ==> |others| == 8 + 2 * |key.obj.n|)
    ensures var m := ToWrite(key, publicOnly);
      && (PrivateRsa(m) <==> key.obj.RsaKey? && Emits(key, publicOnly))
      && (PrivateRsa(m) ==> key.obj.numbers.Some?)
      && Exported(m, if PrivateRsa(m) then key.obj.numbers.value.d else [], others)
  {
    hide Emits, Padded, CurveSize;
  }

  /** The map head and the entries. */
  method WriteKey(key: CoseKey, raw: Bytes, others: seq<byte>, out: array<byte>) returns (ret: Status, outLen: nat)
    requires Writable(key) && Exported(key.material, raw, others)
    modifies out
    ensures ret.Success? <==> Sound(key.material) && (PrivateRsa(key.material) ==> raw != []) && RoomFor(key) <= out.Length
    ensures ret.Success? ==> outLen == |KeyBytes(key)| <= out.Length && out[..outLen] == KeyBytes(key)
  {
    hide Encoder.Valid, EncodeHead, HeadSize, EntriesBytes, Put, Patch, KeyEntries, Exported, Sound, WorkFits, RoomFor;
    outLen := 0;
    var ctx := new Encoder(out, 0, out.Length);
    ghost var es := KeyEntries(key);
    var mapEntries := |KeyEntries(key)|;
    Nothing(EncodeHead(MAP, mapEntries));
    RoomIs(key, out.Length);
    ret := ctx.EncodeMapStart(mapEntries);
    if ret.Fail? {
      return;
    }
    ghost var w, start := ctx.written, ctx.idx;
    PutBegin(ctx, es);
    ret := EncodeEntries(ctx, key, raw, others, w, start);
    if ret.Success? {
      PutEnd(ctx, es, w, start);
      ctx.Done();
      outLen := ctx.idx;
      PatchPrefix(ctx.was, KeyBytes(key));
      assert out[..outLen] == out[..][..outLen];
    }
  }

  lemma RoomIs(key: CoseKey, size: nat)
    requires Writable(key)
    ensures RoomFor(key) <= size <==> |KeyBytes(key)| <= size && (PrivateRsa(key.material) ==> WorkFits(key, size))
  {
    hide KeyBytes, BeforeExponent;
  }
}
