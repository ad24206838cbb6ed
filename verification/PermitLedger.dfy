/** The permit ledger: a hash-chained file of consumption and recovery records, its scanner,
    its appender, and the consume / recover protocol over them. */
module PermitLedger {
  import opened Prelude
  import opened LedgerWire

  type Digest = d: bytes | |d| == 32 witness EMPTY_DIGEST

  /** SHA-256 is any function to 32 bytes; nothing else is assumed of it. */
  type Hash = bytes -> Digest

  const MAGIC: bytes := [82, 73, 71, 79, 82, 45, 80, 69, 82, 77, 73, 84, 45, 76, 69, 68, 71, 69, 82, 45, 86, 50, 46,
      50, 10]
  const CONSUMED: nat := 0
  const RECOVERY: nat := 1
  const EMPTY_ID: bytes := Repeat(0, 16)
  const MAX_ID: bytes := Repeat(255, 16)
  const EMPTY_DIGEST: bytes := Repeat(0, 32)

  datatype LedgerRecord = LedgerRecord(
    kind: nat,
    permitId: Option<bytes>,
    singleUseId: Option<bytes>,
    permitDigest: Option<bytes>,
    headDigest: bytes,
    recordDigest: bytes)

  datatype Refusal =
    | Torn
    | HeaderDiffers
    | ReservedDiffer
    | ChainDiffers
    | ConsumptionDiffers
    | RepeatedId
    | RecoveryDiffers
    | KindDiffers

  datatype ScanState = ScanState(head: Digest, used: set<bytes>, records: seq<LedgerRecord>)

  datatype Verdict = Accepted(value: ScanState) | Refused(error: Refusal)

  // ----- the meaning of a scan -----

  predicate ConsumptionShape(f: Fields) {
    && f.permitId != EMPTY_ID && f.permitId != MAX_ID
    && f.singleUseId != MAX_ID && f.singleUseId != f.permitId
    && f.digest != EMPTY_DIGEST && f.stamp != 0 && f.metadata == 0
  }

  predicate RecoveryShape(f: Fields) {
    && f.permitId == EMPTY_ID && f.singleUseId == EMPTY_ID
    && f.digest != EMPTY_DIGEST && f.stamp != 0 && 0 < f.metadata < RECORD_BYTES
  }

  /** The identifiers a consumption record occupies. */
  function IdsOf(f: Fields): set<bytes> {
    {f.permitId, f.singleUseId} - {EMPTY_ID}
  }

  function RecordOf(h: Hash, f: Fields, raw: bytes, head: bytes): LedgerRecord {
    LedgerRecord(
      f.kind,
      if f.kind == CONSUMED then Some(f.permitId) else None,
      if f.kind == CONSUMED && f.singleUseId != EMPTY_ID then Some(f.singleUseId) else None,
      if f.kind == CONSUMED then Some(f.digest) else None,
      head,
      h(raw))
  }

  /** The link message: the old head and everything but the trailing head of the record. */
  function NextHead(h: Hash, head: Digest, raw: bytes): Digest
    requires |raw| == RECORD_BYTES
  {
    h(head + raw[..80])
  }

  function CheckRecord(h: Hash, st: ScanState, raw: bytes): Verdict
    requires |raw| == RECORD_BYTES
  {
    var f := Unpack(raw);
    var head := NextHead(h, st.head, raw);
    if !PaddingZero(raw) then Refused(ReservedDiffer)
    else if f.previous != st.head then Refused(ChainDiffers)
    else if f.kind == CONSUMED then
      if !ConsumptionShape(f) then Refused(ConsumptionDiffers)
      else if !(IdsOf(f) !! st.used) then Refused(RepeatedId)
      else Accepted(ScanState(head, st.used + IdsOf(f), st.records + [RecordOf(h, f, raw, head)]))
    else if f.kind == RECOVERY then
      if !RecoveryShape(f) then Refused(RecoveryDiffers)
      else Accepted(ScanState(head, st.used, st.records + [RecordOf(h, f, raw, head)]))
    else Refused(KindDiffers)
  }

  function Size(n: nat): nat {
    |MAGIC| + RECORD_BYTES * n
  }

  function RawAt(file: bytes, n: nat): bytes
    requires Size(n + 1) <= |file|
  {
    file[Size(n)..Size(n + 1)]
  }

  function ScanFile(h: Hash, file: bytes, n: nat): (r: Verdict)
    ensures r.Accepted? ==> Size(n) <= |file| && |r.value.records| == n
  {
    if n == 0 then
      if |file| < |MAGIC| then Refused(Torn)
      else if file[..|MAGIC|] != MAGIC then Refused(HeaderDiffers)
      else Accepted(ScanState(h(MAGIC), {}, []))
    else
      var before := ScanFile(h, file, n - 1);
      if before.Refused? then before
      else if |file| < Size(n) then Refused(Torn)
      else CheckRecord(h, before.value, RawAt(file, n - 1))
  }

  // ----- the scanning loop -----

  /** `for used_id in (record_id, single_use_id)`. */
  method CollectIds(f: Fields, used: set<bytes>, nonce: Option<bytes>, singleNonce: Option<bytes>)
    returns (ok: bool, used': set<bytes>, found: bool)
    requires ConsumptionShape(f)
    ensures ok <==> IdsOf(f) !! used
    ensures ok ==> used' == used + IdsOf(f)
    ensures ok ==> (found <==> exists id :: id in IdsOf(f) && (nonce == Some(id) || singleNonce == Some(id)))
  {
    var ids := [f.permitId, f.singleUseId];
    used', found := used, false;
    for i := 0 to 2
      invariant used' == used + if i == 0 then {} else if i == 1 then {f.permitId} else IdsOf(f)
      invariant i >= 1 ==> f.permitId !in used
      invariant i >= 2 ==> IdsOf(f) !! used
      invariant found <==> exists id :: id in used' - used && (nonce == Some(id) || singleNonce == Some(id))
    {
      if ids[i] != EMPTY_ID {
        if ids[i] in used' {
          return false, used', found;
        }
        ghost var was := used' - used;
        used' := used' + {ids[i]};
        assert used' - used == was + {ids[i]};
        found := found || nonce == Some(ids[i]) || singleNonce == Some(ids[i]);
      }
    }
    assert used' - used == IdsOf(f);
    return true, used', found;
  }

  /** The body of the scanning loop for one record. */
  method CheckOne(h: Hash, st: ScanState, raw: bytes, nonce: Option<bytes>, singleNonce: Option<bytes>)
    returns (checked: Verdict, hit: bool)
    requires |raw| == RECORD_BYTES
    ensures checked == CheckRecord(h, st, raw)
    ensures checked.Accepted? ==> st.used <= checked.value.used
    ensures checked.Accepted? ==>
              (hit <==> exists id ::
                 id in checked.value.used - st.used && (nonce == Some(id) || singleNonce == Some(id)))
  {
    var f := Unpack(raw);
    var used := st.used;
    hit := false;
    if !PaddingZero(raw) {
      return Refused(ReservedDiffer), false;
    }
    if f.previous != st.head {
      return Refused(ChainDiffers), false;
    }
    if f.kind == CONSUMED {
      if !ConsumptionShape(f) {
        return Refused(ConsumptionDiffers), false;
      }
      var unique;
      unique, used, hit := CollectIds(f, used, nonce, singleNonce);
      if !unique {
        return Refused(RepeatedId), false;
      }
      assert used - st.used == IdsOf(f);
    } else if f.kind == RECOVERY {
      if !RecoveryShape(f) {
        return Refused(RecoveryDiffers), false;
      }
    } else {
      return Refused(KindDiffers), false;
    }
    var head := NextHead(h, st.head, raw);
    return Accepted(ScanState(head, used, st.records + [RecordOf(h, f, raw, head)])), hit;
  }

  /** `_scan` refines `ScanFile` under every schedule of short reads; it also reports whether a
      requested identifier occurs and the head after the selected prefix. */
  method Scan(d: Descriptor, h: Hash, completeRecords: nat, nonce: Option<bytes>, anchorCount: Option<nat>,
              singleNonce: Option<bytes>)
    returns (result: Verdict, found: bool, anchorHead: Option<bytes>)
    modifies d`position
    ensures result == ScanFile(h, d.contents, completeRecords)
    ensures result.Accepted? ==> d.position == Size(completeRecords)
    ensures result.Accepted? ==>
              (found <==> exists id :: id in result.value.used && (nonce == Some(id) || singleNonce == Some(id)))
    ensures result.Accepted? ==> anchorHead == AnchorHead(h, d.contents, completeRecords, anchorCount)
  {
    hide ScanFile, AnchorHead;
    found, anchorHead := false, None;
    d.position := 0;
    var ok, header := ReadExact(d, |MAGIC|);
    assert ok ==> header == d.contents[..|MAGIC|];
    ScanHeader(h, d.contents, completeRecords, anchorCount);
    if !ok {
      return Refused(Torn), false, None;
    }
    if header != MAGIC {
      return Refused(HeaderDiffers), false, None;
    }
    var head: Digest := h(MAGIC);
    var used: set<bytes> := {};
    var records: seq<LedgerRecord> := [];
    if anchorCount == Some(0) {
      anchorHead := Some(head);
    }
    for index := 0 to completeRecords
      invariant d.position == Size(index) <= |d.contents|
      invariant ScanFile(h, d.contents, index) == Accepted(ScanState(head, used, records))
      invariant found <==> exists id :: id in used && (nonce == Some(id) || singleNonce == Some(id))
      invariant anchorHead == AnchorHead(h, d.contents, index, anchorCount)
    {
      ScanNext(h, d.contents, index, completeRecords, anchorCount);
      var whole, raw := ReadExact(d, RECORD_BYTES);
      if !whole {
        return Refused(Torn), false, None;
      }
      assert raw == RawAt(d.contents, index);
      var checked, hit := CheckOne(h, ScanState(head, used, records), raw, nonce, singleNonce);
      if checked.Refused? {
        return Refused(checked.error), false, None;
      }
      head, used, records := checked.value.head, checked.value.used, checked.value.records;
      found := found || hit;
      if anchorCount == Some(index + 1) {
        anchorHead := Some(head);
      }
    }
    return Accepted(ScanState(head, used, records)), found, anchorHead;
  }

  lemma ScanHeader(h: Hash, file: bytes, n: nat, anchorCount: Option<nat>)
    ensures ScanFile(h, file, 0) ==
            if |file| < |MAGIC| then Refused(Torn)
            else if file[..|MAGIC|] != MAGIC then Refused(HeaderDiffers)
            else Accepted(ScanState(h(MAGIC), {}, []))
    ensures ScanFile(h, file, 0).Refused? ==> ScanFile(h, file, n) == ScanFile(h, file, 0)
    ensures ScanFile(h, file, 0).Accepted? ==>
              AnchorHead(h, file, 0, anchorCount) == if anchorCount == Some(0) then Some(h(MAGIC)) else None
  {
    if ScanFile(h, file, 0).Refused? {
      ScanRefused(h, file, 0, n);
    }
  }

  /** One more record: what the scan of k + 1 records is, and that a refusal there is final. */
  lemma ScanNext(h: Hash, file: bytes, k: nat, n: nat, anchorCount: Option<nat>)
    requires k < n && ScanFile(h, file, k).Accepted?
    ensures ScanFile(h, file, k + 1) ==
            if |file| < Size(k + 1) then Refused(Torn) else CheckRecord(h, ScanFile(h, file, k).value, RawAt(file, k))
    ensures ScanFile(h, file, k + 1).Refused? ==> ScanFile(h, file, n) == ScanFile(h, file, k + 1)
    ensures ScanFile(h, file, k + 1).Accepted? ==>
              AnchorHead(h, file, k + 1, anchorCount) ==
              if anchorCount == Some(k + 1) then Some(ScanFile(h, file, k + 1).value.head)
              else AnchorHead(h, file, k, anchorCount)
  {
    hide CheckRecord;
    if ScanFile(h, file, k + 1).Refused? {
      ScanRefused(h, file, k + 1, n);
    }
  }

  /** The head after the selected number of records, when the scan got that far. */
  function AnchorHead(h: Hash, file: bytes, n: nat, anchorCount: Option<nat>): Option<bytes> {
    if anchorCount.Some? && anchorCount.value <= n && ScanFile(h, file, anchorCount.value).Accepted?
    then Some(ScanFile(h, file, anchorCount.value).value.head)
    else None
  }

  /** The first refusal is final. */
  lemma {:induction false} ScanRefused(h: Hash, file: bytes, k: nat, n: nat)
    requires k <= n && ScanFile(h, file, k).Refused?
    ensures ScanFile(h, file, n) == ScanFile(h, file, k)
  {
    if k < n {
      ScanRefused(h, file, k, n - 1);
    }
  }

  // ----- appending -----

  /** A scan of n records looks at nothing behind them: torn bytes do not change it. */
  lemma {:induction false} ScanPrefix(h: Hash, file: bytes, tail: bytes, n: nat)
    requires Size(n) <= |file|
    ensures ScanFile(h, file + tail, n) == ScanFile(h, file, n)
  {
    if n == 0 {
      assert (file + tail)[..|MAGIC|] == file[..|MAGIC|];
    } else {
      ScanPrefix(h, file, tail, n - 1);
      assert RawAt(file + tail, n - 1) == RawAt(file, n - 1);
    }
  }

  /** The records a scan in state st accepts next. */
  predicate Admissible(st: ScanState, f: Fields) {
    || (f.kind == CONSUMED && ConsumptionShape(f) && IdsOf(f) !! st.used)
    || (f.kind == RECOVERY && RecoveryShape(f))
  }

  function Extended(h: Hash, st: ScanState, f: Fields): ScanState
    requires Fits(f)
  {
    var head := NextHead(h, st.head, Pack(f));
    ScanState(
      head,
      if f.kind == CONSUMED then st.used + IdsOf(f) else st.used,
      st.records + [RecordOf(h, f, Pack(f), head)])
  }

  /** A linked record appended to an accepted file is accepted exactly when it is admissible,
      and the rescan is the old state extended by it. */
  lemma AppendScans(h: Hash, file: bytes, n: nat, f: Fields)
    requires |file| == Size(n) && ScanFile(h, file, n).Accepted? && Fits(f)
    requires f.previous == ScanFile(h, file, n).value.head
    ensures var st, after := ScanFile(h, file, n).value, ScanFile(h, file + Pack(f), n + 1);
            (after.Accepted? <==> Admissible(st, f)) && (after.Accepted? ==> after.value == Extended(h, st, f))
  {
    ScanPrefix(h, file, Pack(f), n);
    assert RawAt(file + Pack(f), n) == Pack(f);
    UnpackPack(f);
  }

  /** `_append`: the linked record, or a torn proper prefix of it, reaches the file. The call
      returns the new head exactly when the record is whole and was forced to storage; a
      failing fsync leaves the whole record behind. */
  method Append(d: Descriptor, h: Hash, f: Fields, synced: bool) returns (ok: bool, head: bytes, ghost written: nat)
    requires Fits(f)
    modifies d`contents
    ensures written <= RECORD_BYTES && d.contents == old(d.contents) + Pack(f)[..written]
    ensures ok <==> written == RECORD_BYTES && synced
    ensures ok ==> head == h(f.previous + Pack(f)[..80])
  {
    var raw := Pack(f);
    ok, written := WriteAll(d, raw);
    ok := ok && synced;
    head := if ok then h(f.previous + raw[..80]) else [];
  }

  // ----- identifiers are spent once -----

  function RecordIds(r: LedgerRecord): set<bytes> {
    (if r.permitId.Some? then {r.permitId.value} else {}) + (if r.singleUseId.Some? then {r.singleUseId.value} else {})
  }

  ghost predicate SpentOnce(records: seq<LedgerRecord>, used: set<bytes>) {
    && (forall i, j | 0 <= i < j < |records| :: RecordIds(records[i]) !! RecordIds(records[j]))
    && (forall r | r in records && r.permitId.Some? :: r.permitId != r.singleUseId)
    && (forall i | 0 <= i < |records| :: RecordIds(records[i]) <= used)
    && (forall id | id in used :: exists i :: 0 <= i < |records| && id in RecordIds(records[i]))
  }

  lemma SpendMore(records: seq<LedgerRecord>, used: set<bytes>, r: LedgerRecord)
    requires SpentOnce(records, used) && RecordIds(r) !! used
    requires r.permitId.Some? ==> r.permitId != r.singleUseId
    ensures SpentOnce(records + [r], used + RecordIds(r))
  {
    var all := records + [r];
    forall id | id in used + RecordIds(r) ensures exists i :: 0 <= i < |all| && id in RecordIds(all[i]) {
      if id in used {
        var i :| 0 <= i < |records| && id in RecordIds(records[i]);
        assert id in RecordIds(all[i]);
      } else {
        assert id in RecordIds(all[|records|]);
      }
    }
  }

  lemma ScanStart(h: Hash, file: bytes)
    requires ScanFile(h, file, 0).Accepted?
    ensures ScanFile(h, file, 0).value == ScanState(h(MAGIC), {}, []) && SpentOnce([], {})
  {
  }

  /** One accepted record: how the scan state after it comes from the state before it. */
  lemma ScanStep(h: Hash, file: bytes, n: nat)
    requires n > 0 && ScanFile(h, file, n).Accepted?
    ensures ScanFile(h, file, n - 1).Accepted? && Size(n) <= |file|
    ensures var before, st, raw := ScanFile(h, file, n - 1).value, ScanFile(h, file, n).value, RawAt(file, n - 1);
            && PaddingZero(raw) && raw[80..] == before.head && Admissible(before, Unpack(raw))
            && st.head == h(before.head + raw[..80])
            && st.records == before.records + [RecordOf(h, Unpack(raw), raw, st.head)]
            && st.used == if raw[0] == CONSUMED then before.used + IdsOf(Unpack(raw)) else before.used
  {
  }

  /** In an accepted ledger no identifier occurs twice, in either position, and the used set is
      exactly what the records carry. */
  lemma {:induction false} IdsSpentOnce(h: Hash, file: bytes, n: nat)
    requires ScanFile(h, file, n).Accepted?
    ensures SpentOnce(ScanFile(h, file, n).value.records, ScanFile(h, file, n).value.used)
  {
    hide ScanFile, SpentOnce;
    if n == 0 {
      ScanStart(h, file);
    } else {
      ScanStep(h, file, n);
      IdsSpentOnce(h, file, n - 1);
      var before, raw := ScanFile(h, file, n - 1).value, RawAt(file, n - 1);
      var f := Unpack(raw);
      var r := RecordOf(h, f, raw, ScanFile(h, file, n).value.head);
      assert RecordIds(r) == if f.kind == CONSUMED then IdsOf(f) else {};
      SpendMore(before.records, before.used, r);
      assert before.used + RecordIds(r) == ScanFile(h, file, n).value.used;
    }
  }

  // ----- equal heads pin the whole prefix -----

  /** The message whose hash is the head after n records. */
  function LinkMessage(h: Hash, file: bytes, n: nat): bytes
    requires ScanFile(h, file, n).Accepted?
  {
    if n == 0 then MAGIC else ScanFile(h, file, n - 1).value.head + RawAt(file, n - 1)[..80]
  }

  /** Walk both chains back together until their link messages differ. */
  function FindCollision(h: Hash, file1: bytes, n: nat, file2: bytes, m: nat): Option<(bytes, bytes)>
    requires ScanFile(h, file1, n).Accepted? && ScanFile(h, file2, m).Accepted?
  {
    var a, b := LinkMessage(h, file1, n), LinkMessage(h, file2, m);
    if a != b then Some((a, b))
    else if n == 0 || m == 0 then None
    else FindCollision(h, file1, n - 1, file2, m - 1)
  }

  lemma LinkHashes(h: Hash, file: bytes, n: nat)
    requires ScanFile(h, file, n).Accepted?
    ensures h(LinkMessage(h, file, n)) == ScanFile(h, file, n).value.head
    ensures |LinkMessage(h, file, n)| == if n == 0 then 25 else 112
  {
    if n > 0 {
      ScanStep(h, file, n);
    }
  }

  /** Equal link messages: the heads before and the whole records are equal. */
  lemma SameLink(h: Hash, file1: bytes, n: nat, file2: bytes, m: nat)
    requires n > 0 && m > 0 && ScanFile(h, file1, n).Accepted? && ScanFile(h, file2, m).Accepted?
    requires LinkMessage(h, file1, n) == LinkMessage(h, file2, m)
    ensures ScanFile(h, file1, n - 1).value.head == ScanFile(h, file2, m - 1).value.head
    ensures RawAt(file1, n - 1) == RawAt(file2, m - 1)
  {
    var a, b := LinkMessage(h, file1, n), LinkMessage(h, file2, m);
    var r1, r2 := RawAt(file1, n - 1), RawAt(file2, m - 1);
    ScanStep(h, file1, n);
    ScanStep(h, file2, m);
    assert a[..32] == ScanFile(h, file1, n - 1).value.head && a[32..] == r1[..80];
    assert b[..32] == ScanFile(h, file2, m - 1).value.head && b[32..] == r2[..80];
    assert r1 == r1[..80] + r1[80..] && r2 == r2[..80] + r2[80..];
  }

  ghost predicate PinnedOrCollides(h: Hash, file1: bytes, n: nat, file2: bytes, m: nat, c: Option<(bytes, bytes)>) {
    && Size(n) <= |file1| && Size(m) <= |file2|
    && if c.Some? then c.value.0 != c.value.1 && h(c.value.0) == h(c.value.1)
       else n == m && file1[..Size(n)] == file2[..Size(m)]
  }

  lemma PinOneMore(h: Hash, file1: bytes, n: nat, file2: bytes, m: nat, c: Option<(bytes, bytes)>)
    requires n > 0 && m > 0 && Size(n) <= |file1| && Size(m) <= |file2|
    requires PinnedOrCollides(h, file1, n - 1, file2, m - 1, c) && RawAt(file1, n - 1) == RawAt(file2, m - 1)
    ensures PinnedOrCollides(h, file1, n, file2, m, c)
  {
    assert file1[..Size(n)] == file1[..Size(n - 1)] + RawAt(file1, n - 1);
    assert file2[..Size(m)] == file2[..Size(m - 1)] + RawAt(file2, m - 1);
  }

  lemma PinHeader(h: Hash, file1: bytes, file2: bytes)
    requires ScanFile(h, file1, 0).Accepted? && ScanFile(h, file2, 0).Accepted?
    ensures PinnedOrCollides(h, file1, 0, file2, 0, FindCollision(h, file1, 0, file2, 0))
  {
    assert Size(0) == |MAGIC|;
  }

  lemma FindStep(h: Hash, file1: bytes, n: nat, file2: bytes, m: nat)
    requires ScanFile(h, file1, n).Accepted? && ScanFile(h, file2, m).Accepted?
    requires ScanFile(h, file1, n + 1).Accepted? && ScanFile(h, file2, m + 1).Accepted?
    requires LinkMessage(h, file1, n + 1) == LinkMessage(h, file2, m + 1)
    ensures FindCollision(h, file1, n + 1, file2, m + 1) == FindCollision(h, file1, n, file2, m)
  {
    hide ScanFile, LinkMessage;
  }

  /** Equal link messages: both chains are at their start, or neither is and the heads before
      them are equal. */
  lemma SamePlace(h: Hash, file1: bytes, n: nat, file2: bytes, m: nat)
    requires ScanFile(h, file1, n).Accepted? && ScanFile(h, file2, m).Accepted?
    requires LinkMessage(h, file1, n) == LinkMessage(h, file2, m)
    ensures n == 0 <==> m == 0
    ensures n > 0 ==> ScanFile(h, file1, n - 1).Accepted? && ScanFile(h, file2, m - 1).Accepted?
    ensures n > 0 ==> ScanFile(h, file1, n - 1).value.head == ScanFile(h, file2, m - 1).value.head
    ensures n > 0 ==> Size(n) <= |file1| && Size(m) <= |file2| && RawAt(file1, n - 1) == RawAt(file2, m - 1)
  {
    LinkHashes(h, file1, n);
    LinkHashes(h, file2, m);
    hide ScanFile, LinkMessage;
    if n > 0 && m > 0 {
      ScanStep(h, file1, n);
      ScanStep(h, file2, m);
      SameLink(h, file1, n, file2, m);
    }
  }

  /** Two accepted ledgers with equal heads have the same number of records and the same bytes,
      or the walk returns two different messages with the same hash. */
  lemma {:induction false} EqualHeads(h: Hash, file1: bytes, n: nat, file2: bytes, m: nat)
    requires ScanFile(h, file1, n).Accepted? && ScanFile(h, file2, m).Accepted?
    requires ScanFile(h, file1, n).value.head == ScanFile(h, file2, m).value.head
    ensures PinnedOrCollides(h, file1, n, file2, m, FindCollision(h, file1, n, file2, m))
  {
    hide ScanFile, FindCollision, PinnedOrCollides, LinkMessage;
    if LinkMessage(h, file1, n) != LinkMessage(h, file2, m) {
      FindHere(h, file1, n, file2, m);
    } else {
      SamePlace(h, file1, n, file2, m);
      if n == 0 {
        PinHeader(h, file1, file2);
      } else {
        EqualHeads(h, file1, n - 1, file2, m - 1);
        FindStep(h, file1, n - 1, file2, m - 1);
        PinOneMore(h, file1, n, file2, m, FindCollision(h, file1, n - 1, file2, m - 1));
      }
    }
  }

  lemma FindHere(h: Hash, file1: bytes, n: nat, file2: bytes, m: nat)
    requires ScanFile(h, file1, n).Accepted? && ScanFile(h, file2, m).Accepted?
    requires ScanFile(h, file1, n).value.head == ScanFile(h, file2, m).value.head
    requires LinkMessage(h, file1, n) != LinkMessage(h, file2, m)
    ensures PinnedOrCollides(h, file1, n, file2, m, FindCollision(h, file1, n, file2, m))
  {
    LinkHashes(h, file1, n);
    LinkHashes(h, file2, m);
  }

  // ----- the consume / recover protocol -----

  /** One locked operation; `written` is how many bytes of its record reach the file before a
      failed write ends it (all 112 when none does). */
  datatype Operation =
    | Consume(permitId: bytes, singleUseId: Option<bytes>, digest: bytes, stamp: nat, written: nat)
    | Recover(stamp: nat, written: nat)

  function Complete(file: bytes): nat
    requires |file| >= |MAGIC|
  {
    (|file| - |MAGIC|) / RECORD_BYTES
  }

  function TailSize(file: bytes): nat
    requires |file| >= |MAGIC|
  {
    (|file| - |MAGIC|) % RECORD_BYTES
  }

  predicate Nonce(id: bytes) {
    |id| == 16 && id != EMPTY_ID && id != MAX_ID
  }

  predicate Stamp(stamp: nat) {
    0 < stamp < Pow256(8)
  }

  predicate WellFormed(op: Operation) {
    && Stamp(op.stamp) && op.written <= RECORD_BYTES
    && (op.Consume? ==>
          && Nonce(op.permitId) && |op.digest| == 32 && op.digest != EMPTY_DIGEST
          && (op.singleUseId.Some? ==> Nonce(op.singleUseId.value) && op.singleUseId.value != op.permitId))
  }

  function OpIds(op: Operation): set<bytes> {
    if op.Recover? then {} else {op.permitId} + if op.singleUseId.Some? then {op.singleUseId.value} else {}
  }

  function RecordFor(h: Hash, file: bytes, op: Operation, head: Digest): (f: Fields)
    requires WellFormed(op) && |file| >= |MAGIC|
    ensures Fits(f) && f.previous == head
  {
    match op
    case Consume(permitId, single, digest, stamp, _) =>
      Fields(CONSUMED, permitId, if single.Some? then single.value else EMPTY_ID, digest, stamp, 0, head)
    case Recover(stamp, _) =>
      Fields(RECOVERY, EMPTY_ID, EMPTY_ID, h(file[Size(Complete(file))..]), stamp, TailSize(file), head)
  }

  /** The file after one operation, or None when it refuses and changes nothing. */
  function Step(h: Hash, file: bytes, op: Operation): Option<bytes> {
    if !WellFormed(op) || |file| < |MAGIC| then None
    else
      var scan := ScanFile(h, file, Complete(file));
      if scan.Refused? then None
      else if op.Consume? && (TailSize(file) != 0 || !(OpIds(op) !! scan.value.used)) then None
      else if op.Recover? && TailSize(file) == 0 then None
      else Some(file[..Size(Complete(file))] + Pack(RecordFor(h, file, op, scan.value.head))[..op.written])
  }

  /** Every complete record of the file scans. */
  predicate Sound(h: Hash, file: bytes) {
    |file| >= |MAGIC| && ScanFile(h, file, Complete(file)).Accepted?
  }

  function StateOf(h: Hash, file: bytes): ScanState
    requires Sound(h, file)
  {
    ScanFile(h, file, Complete(file)).value
  }

  /** The one way a completed operation can leave an unreadable ledger: the removed tail hashes
      to the reserved zero digest. */
  predicate ZeroTail(h: Hash, file: bytes, op: Operation)
    requires |file| >= |MAGIC|
  {
    op.Recover? && op.written == RECORD_BYTES && h(file[Size(Complete(file))..]) == EMPTY_DIGEST
  }

  lemma TakeScan(h: Hash, file: bytes)
    requires |file| >= |MAGIC|
    ensures Size(Complete(file)) <= |file| == Size(Complete(file)) + TailSize(file)
    ensures ScanFile(h, file[..Size(Complete(file))], Complete(file)) == ScanFile(h, file, Complete(file))
  {
    hide ScanFile;
    var n := Complete(file);
    assert file == file[..Size(n)] + file[Size(n)..];
    ScanPrefix(h, file[..Size(n)], file[Size(n)..], n);
  }

  lemma CompleteOf(base: bytes, n: nat, extra: bytes)
    requires |base| == Size(n) && |extra| < RECORD_BYTES
    ensures Complete(base + extra) == n && TailSize(base + extra) == |extra|
  {
  }

  lemma StepParts(h: Hash, file: bytes, op: Operation)
    requires Sound(h, file) && Step(h, file, op).Some?
    ensures var n, st := Complete(file), StateOf(h, file);
            && |file[..Size(n)]| == Size(n) && ScanFile(h, file[..Size(n)], n) == Accepted(st) && WellFormed(op)
            && Step(h, file, op).value == file[..Size(n)] + Pack(RecordFor(h, file, op, st.head))[..op.written]
  {
    TakeScan(h, file);
  }

  /** A write cut short leaves the old record count scanning to the old state. */
  lemma TornStep(h: Hash, file: bytes, op: Operation)
    requires Sound(h, file) && Step(h, file, op).Some? && op.written < RECORD_BYTES
    ensures var after := Step(h, file, op).value;
            Sound(h, after) && StateOf(h, after) == StateOf(h, file) && TailSize(after) == op.written
  {
    StepParts(h, file, op);
    var n := Complete(file);
    var raw := Pack(RecordFor(h, file, op, StateOf(h, file).head));
    CompleteOf(file[..Size(n)], n, raw[..op.written]);
    ScanPrefix(h, file[..Size(n)], raw[..op.written], n);
  }

  /** A completed operation appends exactly its record. Soundness is lost in the ZeroTail case
      and no other. */
  lemma CompletedStep(h: Hash, file: bytes, op: Operation)
    requires Sound(h, file) && Step(h, file, op).Some? && op.written == RECORD_BYTES
    ensures var after, st := Step(h, file, op).value, StateOf(h, file);
            && (Sound(h, after) <==> !ZeroTail(h, file, op)) && |after| >= |MAGIC| && TailSize(after) == 0
            && (Sound(h, after) ==> StateOf(h, after) == Extended(h, st, RecordFor(h, file, op, st.head)))
  {
    hide ScanFile;
    StepParts(h, file, op);
    var n, st := Complete(file), StateOf(h, file);
    var f := RecordFor(h, file, op, st.head);
    assert Pack(f)[..op.written] == Pack(f);
    AppendScans(h, file[..Size(n)], n, f);
    assert |file[..Size(n)] + Pack(f)| == Size(n + 1);
    OpAdmissible(h, file, op);
  }

  lemma OpAdmissible(h: Hash, file: bytes, op: Operation)
    requires Sound(h, file) && Step(h, file, op).Some?
    ensures var st := StateOf(h, file); var f := RecordFor(h, file, op, st.head);
            && (Admissible(st, f) <==> !(op.Recover? && h(file[Size(Complete(file))..]) == EMPTY_DIGEST))
            && (op.Consume? ==> IdsOf(f) == OpIds(op))
  {
  }

  /** Refused operations leave the file as it is. */
  function Run(h: Hash, file: bytes, ops: seq<Operation>): bytes
    decreases |ops|
  {
    if ops == [] then file
    else
      var next := Step(h, file, ops[0]);
      Run(h, if next.Some? then next.value else file, ops[1..])
  }

  /** The record a completed operation leaves behind. */
  function RecordLeft(h: Hash, file: bytes, op: Operation): LedgerRecord
    requires Sound(h, file) && WellFormed(op)
  {
    var head := StateOf(h, file).head;
    var raw := Pack(RecordFor(h, file, op, head));
    RecordOf(h, RecordFor(h, file, op, head), raw, NextHead(h, head, raw))
  }

  /** The records of the operations of a run that were written whole, in order. */
  function Log(h: Hash, file: bytes, ops: seq<Operation>): seq<LedgerRecord>
    decreases |ops|
  {
    if ops == [] || !Sound(h, file) then []
    else
      var next := Step(h, file, ops[0]);
      if next.None? then Log(h, file, ops[1..])
      else
        (if ops[0].written == RECORD_BYTES then [RecordLeft(h, file, ops[0])] else []) + Log(h, next.value, ops[1..])
  }

  /** The identifiers the records carry. */
  function IdsIn(records: seq<LedgerRecord>): set<bytes> {
    set r, id | r in records && id in RecordIds(r) :: id
  }

  lemma StepLogs(h: Hash, file: bytes, op: Operation)
    requires Sound(h, file) && Step(h, file, op).Some?
    ensures var after := Step(h, file, op).value;
            && (Sound(h, after) <==> !ZeroTail(h, file, op))
            && (Sound(h, after) ==> (
                  var left := if op.written == RECORD_BYTES then [RecordLeft(h, file, op)] else [];
                  StateOf(h, after).records == StateOf(h, file).records + left))
  {
    StepParts(h, file, op);
    hide ScanFile, Pack;
    if op.written < RECORD_BYTES {
      TornStep(h, file, op);
    } else {
      CompletedStep(h, file, op);
    }
  }

  /** Operation i of the run is accepted on a readable ledger, whole, and recovers a tail that
      hashes to the zero digest. */
  ghost predicate ZeroTailAt(h: Hash, file: bytes, ops: seq<Operation>, i: nat) {
    && i < |ops| && Sound(h, Run(h, file, ops[..i])) && Step(h, Run(h, file, ops[..i]), ops[i]).Some?
    && ZeroTail(h, Run(h, file, ops[..i]), ops[i])
  }

  /** The file after the first operation of a run. */
  function After(h: Hash, file: bytes, op: Operation): bytes {
    var next := Step(h, file, op);
    if next.Some? then next.value else file
  }

  lemma RunCons(h: Hash, file: bytes, ops: seq<Operation>, i: nat)
    requires i < |ops|
    ensures Run(h, file, ops[..i + 1]) == Run(h, After(h, file, ops[0]), ops[1..][..i])
  {
    assert ops[..i + 1][1..] == ops[1..][..i];
  }

  lemma ZeroTailCons(h: Hash, file: bytes, ops: seq<Operation>)
    requires ops != [] && Sound(h, file)
    ensures (exists i: nat :: ZeroTailAt(h, file, ops, i)) <==>
            ZeroTailAt(h, file, ops, 0) || exists i: nat :: ZeroTailAt(h, After(h, file, ops[0]), ops[1..], i)
  {
    hide Run, Step, Sound, ZeroTail;
    var rest := ops[1..];
    if i: nat :| ZeroTailAt(h, file, ops, i) {
      if i > 0 {
        RunCons(h, file, ops, i - 1);
        assert ZeroTailAt(h, After(h, file, ops[0]), rest, i - 1);
      }
    }
    if i: nat :| ZeroTailAt(h, After(h, file, ops[0]), rest, i) {
      RunCons(h, file, ops, i);
      assert ZeroTailAt(h, file, ops, i + 1);
    }
  }

  /** Over any run with any write failures, the ledger becomes unreadable exactly when some
      accepted operation completes the recovery of a tail that hashes to the zero digest. */
  lemma {:induction false} RunSoundExact(h: Hash, file: bytes, ops: seq<Operation>)
    requires Sound(h, file)
    ensures !Sound(h, Run(h, file, ops)) <==> exists i: nat :: ZeroTailAt(h, file, ops, i)
    decreases |ops|
  {
    hide Sound, ZeroTail, Step;
    if ops != [] {
      var after := After(h, file, ops[0]);
      ZeroTailCons(h, file, ops);
      ZeroTailFirst(h, file, ops);
      assert Run(h, file, ops) == Run(h, after, ops[1..]);
      if Sound(h, after) {
        RunSoundExact(h, after, ops[1..]);
      } else {
        UnsoundStays(h, after, ops[1..]);
        NoneAfterUnsound(h, after, ops[1..]);
      }
    }
  }

  lemma ZeroTailFirst(h: Hash, file: bytes, ops: seq<Operation>)
    requires ops != [] && Sound(h, file)
    ensures ZeroTailAt(h, file, ops, 0) <==> !Sound(h, After(h, file, ops[0]))
  {
    assert ops[..0] == [];
    assert Run(h, file, ops[..0]) == file;
    hide Run;
    if Step(h, file, ops[0]).Some? {
      StepLogs(h, file, ops[0]);
    }
  }

  lemma NoneAfterUnsound(h: Hash, file: bytes, ops: seq<Operation>)
    requires !Sound(h, file)
    ensures forall i: nat :: !ZeroTailAt(h, file, ops, i)
  {
    hide Sound, Step, ZeroTail;
    forall i | 0 <= i <= |ops| ensures !Sound(h, Run(h, file, ops[..i])) {
      UnsoundStays(h, file, ops[..i]);
    }
  }

  /** A readable ledger rescans to exactly the old records followed by those of the completed
      operations of the run, whatever writes were cut short between them. */
  lemma {:induction false} RunAppends(h: Hash, file: bytes, ops: seq<Operation>)
    requires Sound(h, file) && Sound(h, Run(h, file, ops))
    ensures StateOf(h, Run(h, file, ops)).records == StateOf(h, file).records + Log(h, file, ops)
    decreases |ops|
  {
    hide Sound, Step, RecordLeft;
    if ops != [] {
      var after := After(h, file, ops[0]);
      assert Run(h, file, ops) == Run(h, after, ops[1..]);
      if !Sound(h, after) {
        UnsoundStays(h, after, ops[1..]);
      } else {
        RunAppends(h, after, ops[1..]);
        if Step(h, file, ops[0]).Some? {
          StepLogs(h, file, ops[0]);
        }
      }
    }
  }

  lemma UsedExact(h: Hash, file: bytes)
    requires Sound(h, file)
    ensures StateOf(h, file).used == IdsIn(StateOf(h, file).records)
  {
    IdsSpentOnce(h, file, Complete(file));
    hide ScanFile, RecordIds;
    var st := StateOf(h, file);
    forall id ensures id in st.used <==> id in IdsIn(st.records) {
      if id in st.used {
        var i :| 0 <= i < |st.records| && id in RecordIds(st.records[i]);
        assert st.records[i] in st.records;
      }
    }
  }

  /** Nothing recorded is forgotten: the identifiers spent before the run stay spent, and those
      of its completed operations join them. */
  lemma RunSpends(h: Hash, file: bytes, ops: seq<Operation>)
    requires Sound(h, file) && Sound(h, Run(h, file, ops))
    ensures StateOf(h, Run(h, file, ops)).used == StateOf(h, file).used + IdsIn(Log(h, file, ops))
  {
    RunAppends(h, file, ops);
    UsedExact(h, file);
    UsedExact(h, Run(h, file, ops));
    hide Sound, StateOf, Run, Log, RecordIds;
    forall id ensures id in IdsIn(StateOf(h, file).records + Log(h, file, ops)) <==>
                      id in IdsIn(StateOf(h, file).records) + IdsIn(Log(h, file, ops)) {
    }
  }

  lemma {:induction false} UnsoundStays(h: Hash, file: bytes, ops: seq<Operation>)
    requires !Sound(h, file)
    ensures Run(h, file, ops) == file
  {
    if ops != [] {
      UnsoundStays(h, file, ops[1..]);
    }
  }

  /** Replay is refused: once a consumption is complete, no operation of any later run that
      names one of its identifiers, in either position, gets past the scan. */
  lemma ReplayRefused(h: Hash, file: bytes, first: Operation, ops: seq<Operation>, again: Operation)
    requires Sound(h, file) && first.Consume? && first.written == RECORD_BYTES && Step(h, file, first).Some?
    requires again.Consume? && !(OpIds(first) !! OpIds(again))
    ensures Step(h, Run(h, Step(h, file, first).value, ops), again).None?
  {
    var after := Step(h, file, first).value;
    CompletedStep(h, file, first);
    OpAdmissible(h, file, first);
    assert OpIds(first) <= StateOf(h, after).used;
    if Sound(h, Run(h, after, ops)) {
      RunSpends(h, after, ops);
    }
  }

  // ----- the bytes of the protocol -----

  predicate Zero(b: bytes) {
    forall i | 0 <= i < |b| :: b[i] == 0
  }

  predicate Full(b: bytes) {
    forall i | 0 <= i < |b| :: b[i] == 255
  }

  lemma ZeroExact(b: bytes)
    ensures |b| == 16 ==> (Zero(b) <==> b == EMPTY_ID) && (Full(b) <==> b == MAX_ID)
    ensures |b| == 32 ==> (Zero(b) <==> b == EMPTY_DIGEST)
  {
  }

  /** What both kinds of record share: zero padding, the stamp and the head they are linked to. */
  ghost predicate Chained(raw: bytes, stamp: nat, head: bytes) {
    && |raw| == 112 && raw[1..4] == [0, 0, 0] && FromBigEndian(raw[68..76]) == stamp && raw[80..] == head
  }

  /** The 112 bytes of a consumption. */
  ghost predicate ConsumptionBytes(raw: bytes, permitId: bytes, single: Option<bytes>, digest: bytes, stamp: nat,
    head: bytes)
  {
    && Chained(raw, stamp, head) && raw[0] == 0
    && raw[4..20] == permitId
    && (if single.Some? then raw[20..36] == single.value else Zero(raw[20..36]))
    && raw[36..68] == digest && Zero(raw[76..80])
  }

  /** The 112 bytes of a recovery. */
  ghost predicate RecoveryBytes(raw: bytes, h: Hash, tail: bytes, stamp: nat, head: bytes) {
    && Chained(raw, stamp, head) && raw[0] == 1
    && Zero(raw[4..36])
    && raw[36..68] == h(tail) && FromBigEndian(raw[76..80]) == |tail|
  }

  ghost predicate OpBytes(h: Hash, file: bytes, op: Operation, raw: bytes)
    requires Sound(h, file)
  {
    match op
    case Consume(permitId, single, digest, stamp, _) =>
      ConsumptionBytes(raw, permitId, single, digest, stamp, StateOf(h, file).head)
    case Recover(stamp, _) => RecoveryBytes(raw, h, Tail(file), stamp, StateOf(h, file).head)
  }

  /** What stands behind the last complete record. */
  function Tail(file: bytes): (tail: bytes)
    requires |file| >= |MAGIC|
    ensures |tail| == (|file| - 25) % 112 && exists whole :: |whole| % 112 == 25 && file == whole + tail
  {
    var n := Size(Complete(file));
    assert file == file[..n] + file[n..];
    file[n..]
  }

  lemma PackLinked(f: Fields)
    requires Fits(f)
    ensures Chained(Pack(f), f.stamp, f.previous) && Pack(f)[0] == f.kind && Pack(f)[4..20] == f.permitId
    ensures Pack(f)[20..36] == f.singleUseId && Pack(f)[36..68] == f.digest
    ensures FromBigEndian(Pack(f)[76..80]) == f.metadata
  {
    UnpackPack(f);
    assert Pack(f)[0] == f.kind;
  }

  lemma {:induction false} ZeroValue(b: bytes)
    ensures FromBigEndian(b) == 0 <==> Zero(b)
  {
    if b != [] {
      ZeroValue(b[..|b| - 1]);
    }
  }

  lemma OpPacks(h: Hash, file: bytes, op: Operation)
    requires Sound(h, file) && WellFormed(op)
    ensures OpBytes(h, file, op, Pack(RecordFor(h, file, op, StateOf(h, file).head)))
  {
    var f := RecordFor(h, file, op, StateOf(h, file).head);
    var raw := Pack(f);
    PackLinked(f);
    ZeroValue(raw[76..80]);
    ZeroExact(raw[4..20]);
    ZeroExact(raw[20..36]);
    hide Pack, Sound, StateOf;
    assert op.Recover? ==> raw[4..36] == raw[4..20] + raw[20..36];
  }

  /** The complete records stay as they are and a leading part of one linked record, with these
      bytes at these places, stands behind them. */
  ghost predicate Appends(h: Hash, file: bytes, op: Operation, after: bytes, raw: bytes)
    requires Sound(h, file)
  {
    OpBytes(h, file, op, raw) && op.written <= 112 && after == file[..|file| - |Tail(file)|] + raw[..op.written]
  }

  /** What the rescan after a whole record reads back. */
  ghost predicate ReadsBack(h: Hash, file: bytes, op: Operation, after: bytes, raw: bytes)
    requires Sound(h, file) && Sound(h, after) && |raw| == 112
  {
    var was, now := StateOf(h, file), StateOf(h, after);
    && now.head == h(was.head + raw[..80])
    && now.records == was.records + [match op
        case Consume(permitId, single, digest, _, _) =>
          LedgerRecord(0, Some(permitId), single, Some(digest), now.head, h(raw))
        case Recover(_, _) => LedgerRecord(1, None, None, None, now.head, h(raw))]
    && forall id :: id in now.used <==>
                    id in was.used || (op.Consume? && (id == op.permitId || Some(id) == op.singleUseId))
  }

  /** What an accepted operation does to the file, and to the scan once its record is whole. */
  ghost predicate Effect(h: Hash, file: bytes, op: Operation, after: bytes)
    requires Sound(h, file)
  {
    exists raw :: Appends(h, file, op, after, raw) &&
                  (op.written == 112 && Sound(h, after) ==> ReadsBack(h, file, op, after, raw))
  }

  lemma PackReadsBack(h: Hash, file: bytes, op: Operation)
    requires Sound(h, file) && Step(h, file, op).Some? && op.written == 112 && Sound(h, Step(h, file, op).value)
    ensures var raw := Pack(RecordFor(h, file, op, StateOf(h, file).head));
            ReadsBack(h, file, op, Step(h, file, op).value, raw)
  {
    CompletedStep(h, file, op);
    StepParts(h, file, op);
    hide Sound, StateOf, Pack, Step;
  }

  lemma StepEffect(h: Hash, file: bytes, op: Operation)
    requires Sound(h, file) && Step(h, file, op).Some?
    ensures Effect(h, file, op, Step(h, file, op).value)
  {
    StepParts(h, file, op);
    OpPacks(h, file, op);
    var raw := Pack(RecordFor(h, file, op, StateOf(h, file).head));
    assert Appends(h, file, op, Step(h, file, op).value, raw);
    if op.written == 112 && Sound(h, Step(h, file, op).value) {
      PackReadsBack(h, file, op);
    }
  }

  /** No record carries the identifier, in either position. */
  ghost predicate Unspent(records: seq<LedgerRecord>, id: bytes) {
    forall r | r in records :: r.permitId != Some(id) && r.singleUseId != Some(id)
  }

  ghost predicate Reserved(id: bytes) {
    Zero(id) || Full(id)
  }

  /** When an operation is accepted: the arguments are in range, every complete record scans,
      and a consumption meets no torn tail and no spent identifier, a recovery a torn tail. */
  lemma AcceptedExact(h: Hash, file: bytes, op: Operation)
    ensures Step(h, file, op).Some? <==>
            && Sound(h, file) && op.written <= 112 && 0 < op.stamp < 0x1_0000_0000_0000_0000
            && (op.Recover? ==> Tail(file) != [])
            && (op.Consume? ==>
                  && Tail(file) == [] && |op.digest| == 32 && !Zero(op.digest)
                  && |op.permitId| == 16 && !Reserved(op.permitId) && Unspent(StateOf(h, file).records, op.permitId)
                  && (op.singleUseId.Some? ==>
                        var id := op.singleUseId.value;
                        && |id| == 16 && !Reserved(id) && id != op.permitId
                        && Unspent(StateOf(h, file).records, id)))
  {
    assert Pow256(8) == 0x1_0000_0000_0000_0000;
    if op.Consume? {
      ZeroExact(op.permitId);
      ZeroExact(op.digest);
      if op.singleUseId.Some? {
        ZeroExact(op.singleUseId.value);
      }
    }
    if Sound(h, file) {
      UsedExact(h, file);
      UnspentExact(StateOf(h, file).records);
    }
    hide ScanFile;
  }

  lemma UnspentExact(records: seq<LedgerRecord>)
    ensures forall id :: Unspent(records, id) <==> id !in IdsIn(records)
  {
    forall id ensures Unspent(records, id) <==> id !in IdsIn(records) {
      forall r | r in records ensures id in RecordIds(r) <==> r.permitId == Some(id) || r.singleUseId == Some(id) {
      }
    }
  }

  // ----- the bytes the scan accepts -----

  ghost predicate Consumption(raw: bytes, used: set<bytes>)
    requires |raw| == 112
  {
    && raw[0] == 0 && raw[1..4] == [0, 0, 0]
    && !Reserved(raw[4..20]) && !Full(raw[20..36]) && raw[20..36] != raw[4..20]
    && !Zero(raw[36..68]) && !Zero(raw[68..76]) && Zero(raw[76..80])
    && raw[4..20] !in used && (Zero(raw[20..36]) || raw[20..36] !in used)
  }

  ghost predicate Recovery(raw: bytes)
    requires |raw| == 112
  {
    && raw[0] == 1 && raw[1..4] == [0, 0, 0] && Zero(raw[4..20]) && Zero(raw[20..36])
    && !Zero(raw[36..68]) && !Zero(raw[68..76]) && 0 < FromBigEndian(raw[76..80]) < 112
  }

  function ReadRecord(raw: bytes, head: bytes, digest: bytes): LedgerRecord
    requires |raw| == 112
  {
    if raw[0] == 0 then
      var single := raw[20..36];
      LedgerRecord(0, Some(raw[4..20]), if Zero(single) then None else Some(single), Some(raw[36..68]), head, digest)
    else LedgerRecord(raw[0], None, None, None, head, digest)
  }

  lemma ShapesExact(raw: bytes, used: set<bytes>)
    requires |raw| == 112
    ensures var f := Unpack(raw);
            && (Consumption(raw, used) <==>
                  PaddingZero(raw) && f.kind == CONSUMED && ConsumptionShape(f) && IdsOf(f) !! used)
            && (Recovery(raw) <==> PaddingZero(raw) && f.kind == RECOVERY && RecoveryShape(f))
  {
    var f := Unpack(raw);
    ZeroExact(raw[4..20]);
    ZeroExact(raw[20..36]);
    ZeroExact(raw[36..68]);
    ZeroValue(raw[68..76]);
    ZeroValue(raw[76..80]);
    assert f.permitId != EMPTY_ID ==> f.permitId in IdsOf(f);
    assert f.singleUseId != EMPTY_ID ==> f.singleUseId in IdsOf(f);
  }

  /** What the scan of one more record accepts and reads, byte by byte. */
  lemma CheckExact(h: Hash, st: ScanState, raw: bytes)
    requires |raw| == 112
    ensures var r := CheckRecord(h, st, raw);
            && (r.Accepted? <==> raw[80..] == st.head && (Consumption(raw, st.used) || Recovery(raw)))
            && (r.Accepted? ==>
                  && r.value.head == h(st.head + raw[..80])
                  && r.value.records == st.records + [ReadRecord(raw, r.value.head, h(raw))]
                  && forall id :: id in r.value.used <==>
                       id in st.used || (raw[0] == 0 && !Zero(id) && (id == raw[4..20] || id == raw[20..36])))
  {
    ShapesExact(raw, st.used);
    ZeroExact(raw[4..20]);
    ZeroExact(raw[20..36]);
    hide ConsumptionShape, RecoveryShape, PaddingZero, Consumption, Recovery;
    var r := CheckRecord(h, st, raw);
    if r.Accepted? && raw[0] == 0 {
      forall id ensures id in r.value.used <==>
                        id in st.used || (!Zero(id) && (id == raw[4..20] || id == raw[20..36])) {
      }
    }
  }

  /** The n records of a readable ledger stand at 25 + 112 i, and each is read from its own bytes
      and the head before it. */
  lemma {:induction false} RecordRead(h: Hash, file: bytes, n: nat, i: nat)
    requires ScanFile(h, file, n).Accepted? && i < n
    ensures 137 + 112 * i <= |file| && |ScanFile(h, file, n).value.records| == n
    ensures var raw, was := file[25 + 112 * i..137 + 112 * i], ScanFile(h, file, i);
            && was.Accepted? && raw[80..] == was.value.head
            && (Consumption(raw, was.value.used) || Recovery(raw))
            && ScanFile(h, file, n).value.records[i] == ReadRecord(raw, h(was.value.head + raw[..80]), h(raw))
  {
    ScanStep(h, file, n);
    if i < n - 1 {
      RecordRead(h, file, n - 1, i);
    } else {
      CheckExact(h, ScanFile(h, file, i).value, RawAt(file, i));
    }
  }

  // ----- the two locked operations -----

  /** Which of the calls around the append succeed: the custody check before the file changes,
      the fsync after a truncation, the fsync after the append, the custody check at the end. */
  datatype Host = Host(custody: bool, truncationSynced: bool, appendSynced: bool, closing: bool)

  /** A consumption: scan everything, refuse a spent identifier, append one linked record. Its
      effect is `Step` for however many bytes reached the file. The call returns the head exactly
      when the step is accepted, written whole, and no call around it fails; after a failing
      fsync or closing check the identifiers are spent all the same. `Effect` names the bytes. */
  method ConsumePermit(d: Descriptor, h: Hash, permitId: bytes, singleUseId: Option<bytes>, digest: bytes, stamp: nat,
    host: Host) returns (head: Option<bytes>, ghost written: nat)
    modifies d
    ensures written <= RECORD_BYTES && (!host.custody ==> written == 0)
    ensures var next := Step(h, old(d.contents), Consume(permitId, singleUseId, digest, stamp, written));
            && d.contents == (if next.Some? then next.value else old(d.contents))
            && (head.Some? <==> next.Some? && written == RECORD_BYTES && host.appendSynced && host.closing)
            && (head.Some? ==> Sound(h, d.contents) && head.value == StateOf(h, d.contents).head)
            && (next.Some? ==>
                  Sound(h, old(d.contents)) &&
                  Effect(h, old(d.contents), Consume(permitId, singleUseId, digest, stamp, written), d.contents))
  {
    hide ScanFile, Pack;
    written := 0;
    var op := Consume(permitId, singleUseId, digest, stamp, 0);
    if !WellFormed(op) || |d.contents| < |MAGIC| || TailSize(d.contents) != 0 {
      return None, 0;
    }
    var result, found, anchor := Scan(d, h, Complete(d.contents), Some(permitId), None, singleUseId);
    if result.Refused? || found {
      return None, 0;
    }
    ghost var before := d.contents;
    assert before[..Size(Complete(before))] == before;
    var f := RecordFor(h, d.contents, op, result.value.head);
    if !host.custody {
      assert before + Pack(f)[..0] == before;
      assert Step(h, before, op) == Some(before);
      StepEffect(h, before, op);
      return None, 0;
    }
    var ok, newHead;
    ok, newHead, written := Append(d, h, f, host.appendSynced);
    ghost var done := Consume(permitId, singleUseId, digest, stamp, written);
    assert RecordFor(h, before, done, result.value.head) == f;
    assert Step(h, before, done) == Some(d.contents);
    StepEffect(h, before, done);
    if !ok || !host.closing {
      return None, written;
    }
    CompletedStep(h, before, done);
    return Some(newHead), written;
  }

  /** The recovery of a torn tail: truncate it and append a record of its exact bytes. Nothing
      changes when the custody check fails; after a truncation that is not forced to storage
      nothing is appended. */
  method RecoverTornTail(d: Descriptor, h: Hash, stamp: nat, host: Host)
    returns (head: Option<bytes>, ghost written: nat)
    modifies d
    ensures written <= RECORD_BYTES && (!host.custody || !host.truncationSynced ==> written == 0)
    ensures var op := Recover(stamp, written); var next := Step(h, old(d.contents), op);
            && d.contents == (if next.Some? && host.custody then next.value else old(d.contents))
            && (head.Some? <==> next.Some? && written == RECORD_BYTES && host.appendSynced && host.closing)
            && (head.Some? && !ZeroTail(h, old(d.contents), op) ==>
                  Sound(h, d.contents) && head.value == StateOf(h, d.contents).head)
            && (next.Some? && host.custody ==>
                  Sound(h, old(d.contents)) && Effect(h, old(d.contents), op, d.contents))
  {
    hide ScanFile, Pack;
    written := 0;
    var op := Recover(stamp, 0);
    if !WellFormed(op) || |d.contents| < |MAGIC| || TailSize(d.contents) == 0 {
      return None, 0;
    }
    var count, tailSize := Complete(d.contents), TailSize(d.contents);
    var result, found, anchor := Scan(d, h, count, None, None, None);
    if result.Refused? {
      return None, 0;
    }
    ghost var before := d.contents;
    var ok, tail := ReadExact(d, tailSize);
    assert Size(count) + tailSize == |before| && before[Size(count)..|before|] == before[Size(count)..];
    assert ok && tail == before[Size(count)..];
    if !host.custody {
      return None, 0;
    }
    var f := Fields(RECOVERY, EMPTY_ID, EMPTY_ID, h(tail), stamp, tailSize, result.value.head);
    assert f == RecordFor(h, before, op, result.value.head);
    d.Truncate(Size(count));
    if !host.truncationSynced {
      assert d.contents + Pack(f)[..0] == d.contents;
      StepEffect(h, before, op);
      return None, 0;
    }
    var newHead;
    ok, newHead, written := Append(d, h, f, host.appendSynced);
    ghost var done := Recover(stamp, written);
    assert RecordFor(h, before, done, result.value.head) == f;
    assert Step(h, before, done) == Some(d.contents);
    StepEffect(h, before, done);
    if !ok || !host.closing {
      return None, written;
    }
    CompletedStep(h, before, done);
    return Some(newHead), written;
  }

  // ----- the zero tail -----

  const TORN: bytes := MAGIC + [1]

  /** A hash that is zero everywhere: recovering one torn byte leaves an unreadable ledger. */
  lemma ZeroTailBreaks()
    ensures var h: Hash := (m: bytes) => EMPTY_DIGEST; var op := Recover(1, RECORD_BYTES);
            && Sound(h, TORN) && Step(h, TORN, op).Some?
            && !Sound(h, Step(h, TORN, op).value)
  {
    var h: Hash := (m: bytes) => EMPTY_DIGEST;
    var op := Recover(1, RECORD_BYTES);
    assert |MAGIC| == 25 && TORN[..|MAGIC|] == MAGIC;
    assert Complete(TORN) == 0 && TailSize(TORN) == 1;
    assert Pow256(8) > 1;
    assert ScanFile(h, TORN, 0).Accepted?;
    CompletedStep(h, TORN, op);
  }
}
