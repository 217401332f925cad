/** The 2-bit ids of src/kernel/mem/bitmap.c.

    The allocator keeps no lengths: a range is a maximal run of blocks with one nonzero id.  This
    module says what ranges a sequence of ids stands for, and how allocating and freeing change
    them.  Two versions of the byte accessors are modelled: the source's own, and the 2-bit get/set
    pair they are meant to be. */
module BlockIds {

  datatype Version = Written | Repaired

  // ---- One byte holds four ids --------------------------------------------------------------------

  function Field(b: bv8, k: nat): bv8
    requires k < 4
  {
    (b >> (2 * k)) & 3
  }

  /** get_bm: the source masks the field but does not shift it down. */
  function Get(v: Version, b: bv8, col: nat): bv8
    requires col <= 6
  {
    match v
    case Written => b & (3 << col)
    case Repaired => (b >> col) & 3
  }

  /** set_bm: the source ors the id in without clearing the field. */
  function Set(v: Version, b: bv8, col: nat, id: bv8): bv8
    requires col <= 6
  {
    match v
    case Written => b | ((id & 3) << col)
    case Repaired => (b & !(3 << col)) | ((id & 3) << col)
  }

  /** The field value after set_bm. */
  function Stored(v: Version, f: bv8, id: bv8): bv8 {
    match v
    case Written => f | (id & 3)
    case Repaired => id & 3
  }

  /** The value get_bm reports for a field. */
  function Shown(v: Version, f: bv8, k: nat): bv8
    requires k < 4
  {
    match v
    case Written => f << (2 * k)
    case Repaired => f
  }

  /** Into a free block both versions store the id itself; the repaired one does so anywhere. */
  lemma StoredIs(v: Version, f: bv8, id: bv8)
    requires id <= 3 && (v == Repaired || f == 0)
    ensures Stored(v, f, id) == id
  {}

  /** Storing 0 clears a field with the repaired accessor only. */
  lemma StoredZero(v: Version, f: bv8)
    ensures Stored(v, f, 0) == if v == Repaired then 0 else f
  {}

  /** When two fields show the same value: in the repaired version when they are equal; in the
      source's, for different columns, only when both are 0. */
  lemma ShownEqual(v: Version, f: bv8, k: nat, g: bv8, j: nat)
    requires k < 4 && j < 4 && f <= 3 && g <= 3
    ensures v == Repaired || f == 0 || k == j ==> (Shown(v, f, k) == Shown(v, g, j) <==> f == g)
    ensures v == Written && k != j ==> (Shown(v, f, k) == Shown(v, g, j) <==> f == 0 && g == 0)
  {
    if k == 0 {} else if k == 1 {} else if k == 2 {} else {}
    if j == 0 {} else if j == 1 {} else if j == 2 {} else {}
  }

  /** The accessors act on one field: setting changes that field and no other. */
  lemma SetField(v: Version, b: bv8, k: nat, j: nat, id: bv8)
    requires k < 4 && j < 4
    ensures Field(Set(v, b, 2 * k, id), j) == if j == k then Stored(v, Field(b, k), id) else Field(b, j)
  {
    if v == Written { SetWritten(b, k, j, id); } else { SetRepaired(b, k, j, id); }
  }

  lemma SetWritten(b: bv8, k: nat, j: nat, id: bv8)
    requires k < 4 && j < 4
    ensures Field(Set(Written, b, 2 * k, id), j) == if j == k then Field(b, k) | (id & 3) else Field(b, j)
  {
    if k == 0 {} else if k == 1 {} else if k == 2 {} else {}
    if j == 0 {} else if j == 1 {} else if j == 2 {} else {}
  }

  lemma SetRepaired(b: bv8, k: nat, j: nat, id: bv8)
    requires k < 4 && j < 4
    ensures Field(Set(Repaired, b, 2 * k, id), j) == if j == k then id & 3 else Field(b, j)
  {
    if k == 0 {} else if k == 1 {} else if k == 2 {} else {}
    if j == 0 {} else if j == 1 {} else if j == 2 {} else {}
  }

  /** Getting shows the field, and shows zero exactly for a free block in both versions. */
  lemma GetField(v: Version, b: bv8, k: nat)
    requires k < 4
    ensures Get(v, b, 2 * k) == Shown(v, Field(b, k), k)
    ensures Get(v, b, 2 * k) == 0 <==> Field(b, k) == 0
  {
    if v == Written { GetWritten(b, k); }
  }

  lemma GetWritten(b: bv8, k: nat)
    requires k < 4
    ensures Get(Written, b, 2 * k) == Field(b, k) << (2 * k)
    ensures Get(Written, b, 2 * k) == 0 <==> Field(b, k) == 0
  {
    if k == 0 {} else if k == 1 {} else if k == 2 {} else {}
  }

  /** Getting after setting returns the id exactly when: the repaired pair always; the source's pair
      only in column 0 or for id 0, and only if the id already contains every bit that was set. */
  lemma GetAfterSet(v: Version, b: bv8, k: nat, id: bv8)
    requires k < 4 && id <= 3
    ensures Get(v, Set(v, b, 2 * k, id), 2 * k) == id <==>
              (v == Repaired || (Field(b, k) | id == id && (k == 0 || id == 0)))
  {
    if k == 0 {} else if k == 1 {} else if k == 2 {} else {}
  }

  /** With the source's get_bm, blocks in different columns never compare equal unless both are free. */
  lemma ColumnsDiffer(b: bv8, c: bv8, k: nat, j: nat)
    requires k < 4 && j < 4 && j != k
    ensures Get(Written, b, 2 * k) == Get(Written, c, 2 * j) <==> Field(b, k) == 0 && Field(c, j) == 0
  {
    if k == 0 {} else if k == 1 {} else if k == 2 {} else {}
    if j == 0 {} else if j == 1 {} else if j == 2 {} else {}
  }

  // ---- Ids of a region ----------------------------------------------------------------------------

  type Ids = seq<bv8>

  /** The ids of n blocks held in the first bytes of a region. */
  function Decode(bytes: seq<bv8>, n: nat): (ids: Ids)
    requires n <= 4 * |bytes|
    ensures |ids| == n
    ensures forall i :: 0 <= i < n ==> ids[i] == Field(bytes[i / 4], i % 4) && ids[i] <= 3
  {
    seq(n, i requires 0 <= i < n => Field(bytes[i / 4], i % 4))
  }

  /** Storing an id through its byte changes that block's id alone. */
  lemma DecodeSet(v: Version, bytes: seq<bv8>, n: nat, i: nat, id: bv8)
    requires i < n <= 4 * |bytes|
    ensures var bytes' := bytes[i / 4 := Set(v, bytes[i / 4], i % 4 * 2, id)];
            Decode(bytes', n) == Decode(bytes, n)[i := Stored(v, Decode(bytes, n)[i], id)]
  {
    var bytes' := bytes[i / 4 := Set(v, bytes[i / 4], i % 4 * 2, id)];
    hide Set, Stored, Field;
    forall j | 0 <= j < n
      ensures Field(bytes'[j / 4], j % 4) ==
                if j == i then Stored(v, Field(bytes[i / 4], i % 4), id) else Field(bytes[j / 4], j % 4)
    {
      SetField(v, bytes[i / 4], i % 4, j % 4, id);
    }
  }

  /** Bytes past the last id do not matter. */
  lemma DecodeFrame(bytes: seq<bv8>, bytes': seq<bv8>, n: nat)
    requires n <= 4 * |bytes| && |bytes'| == |bytes|
    requires forall j :: 0 <= j < |bytes| && 4 * j < n ==> bytes'[j] == bytes[j]
    ensures Decode(bytes', n) == Decode(bytes, n)
  {}

  /** The number of allocated blocks. */
  function Count(ids: Ids): nat {
    if ids == [] then 0 else Count(ids[..|ids| - 1]) + if ids[|ids| - 1] != 0 then 1 else 0
  }

  /** ids with the n blocks from i set to c. */
  function Paint(ids: Ids, i: nat, n: nat, c: bv8): (r: Ids)
    requires i + n <= |ids|
    ensures |r| == |ids|
    ensures forall j :: 0 <= j < |ids| ==> r[j] == if i <= j < i + n then c else ids[j]
  {
    ids[..i] + seq(n, _ => c) + ids[i + n..]
  }

  /** n free blocks start at i; also for n = 0 block i itself must be free. */
  predicate Fits(ids: Ids, i: nat, n: nat) {
    i < |ids| && i + n <= |ids| && ids[i] == 0 && forall j :: i <= j < i + n ==> ids[j] == 0
  }

  /** Where bm_alloc looks first. */
  predicate Lowest(ids: Ids, i: nat, n: nat) {
    Fits(ids, i, n) && forall j: nat :: j < i ==> !Fits(ids, j, n)
  }

  predicate NoFit(ids: Ids, n: nat) {
    forall i: nat :: i < |ids| ==> !Fits(ids, i, n)
  }

  /** The length of the run of blocks from s with the id of block s. */
  function RunLength(ids: Ids, s: nat): (n: nat)
    requires s < |ids|
    ensures 1 <= n && s + n <= |ids|
    ensures forall j :: s <= j < s + n ==> ids[j] == ids[s]
    ensures s + n < |ids| ==> ids[s + n] != ids[s]
    decreases |ids| - s
  {
    if s + 1 < |ids| && ids[s + 1] == ids[s] then 1 + RunLength(ids, s + 1) else 1
  }

  predicate Starts(ids: Ids, s: nat) {
    s < |ids| && ids[s] != 0 && (s == 0 || ids[s - 1] != ids[s])
  }

  /** The ranges a sequence of ids stands for: start block to number of blocks. */
  ghost function Ranges(ids: Ids): map<nat, nat> {
    map s: nat | s < |ids| && Starts(ids, s) :: RunLength(ids, s)
  }

  /** Block j is in the range that starts at s. */
  ghost predicate InRange(live: map<nat, nat>, s: nat, j: nat) {
    s in live && s <= j < s + live[s]
  }

  function EndOf(live: map<nat, nat>, s: nat): nat
    requires s in live
  {
    s + live[s]
  }

  /** Each range is a nonempty run of one nonzero id. */
  ghost predicate Runs(ids: Ids, live: map<nat, nat>) {
    && (forall s :: s in live ==> InRange(live, s, s))
    && (forall s: nat, j: nat :: InRange(live, s, j) ==> s < |ids| && j < |ids| && ids[j] == ids[s] && ids[j] != 0)
  }

  ghost predicate Disjoint(live: map<nat, nat>) {
    forall s: nat, t: nat, j: nat :: InRange(live, s, j) && InRange(live, t, j) ==> s == t
  }

  ghost predicate HasRange(live: map<nat, nat>, j: nat) {
    exists s: nat :: InRange(live, s, j)
  }

  /** Every allocated block is in some range. */
  ghost predicate Covered(ids: Ids, live: map<nat, nat>) {
    forall j: nat {:trigger HasRange(live, j)} :: j < |ids| && ids[j] != 0 ==> HasRange(live, j)
  }

  /** Ranges that touch carry different ids. */
  ghost predicate Coloured(ids: Ids, live: map<nat, nat>)
    requires Runs(ids, live)
  {
    forall s :: s in live && EndOf(live, s) in live ==>
      InRange(live, s, s) && InRange(live, EndOf(live, s), EndOf(live, s)) && ids[s] != ids[EndOf(live, s)]
  }

  /** What it means for a map of ranges to be what the ids record. */
  ghost predicate Records(ids: Ids, live: map<nat, nat>) {
    Runs(ids, live) && Disjoint(live) && Covered(ids, live) && Coloured(ids, live)
  }

  /** The recorded ranges are unique: disjoint runs that cover every allocated block, with different
      ids where two touch, can only be the maximal runs. */
  lemma RecordsUnique(ids: Ids, live: map<nat, nat>)
    requires Records(ids, live)
    ensures live == Ranges(ids)
  {
    hide Records, RunLength, Starts;
    forall s: nat | s in live
      ensures s < |ids| && Starts(ids, s) && live[s] == RunLength(ids, s)
    {
      LiveStarts(ids, live, s);
      LiveIsRun(ids, live, s);
    }
    forall s: nat | s < |ids| && Starts(ids, s)
      ensures s in live
    {
      StartIsLive(ids, live, s);
    }
    assert live.Keys == Ranges(ids).Keys;
  }

  lemma NotInOther(live: map<nat, nat>, r: nat, s: nat, j: nat)
    requires Disjoint(live) && InRange(live, s, j) && r != s
    ensures !InRange(live, r, j)
  {}

  lemma LiveStarts(ids: Ids, live: map<nat, nat>, s: nat)
    requires Records(ids, live) && s in live
    ensures Starts(ids, s)
  {
    assert InRange(live, s, s);
    if s > 0 && ids[s - 1] == ids[s] {
      assert HasRange(live, s - 1);
      var r: nat :| InRange(live, r, s - 1);
      var e := EndOf(live, r);
      NotInOther(live, r, s, s);
      assert false;
    }
  }

  lemma StartIsLive(ids: Ids, live: map<nat, nat>, s: nat)
    requires Records(ids, live) && Starts(ids, s)
    ensures s in live
  {
    assert HasRange(live, s);
    var t: nat :| InRange(live, t, s);
    if t < s {
      assert InRange(live, t, s - 1);
      assert false;
    }
  }

  lemma LiveIsRun(ids: Ids, live: map<nat, nat>, s: nat)
    requires Records(ids, live) && s in live
    ensures s < |ids| && live[s] == RunLength(ids, s)
  {
    hide RunLength;
    var e := EndOf(live, s);
    assert InRange(live, s, s) && InRange(live, s, e - 1);
    if e < |ids| && ids[e] == ids[s] {
      assert HasRange(live, e);
      var r: nat :| InRange(live, r, e);
      if r < e { assert InRange(live, r, e - 1); }
    }
    forall j | s <= j < e ensures ids[j] == ids[s] {
      assert InRange(live, s, j);
    }
    RunLengthUnique(ids, s, live[s]);
  }

  lemma RunLengthUnique(ids: Ids, s: nat, n: nat)
    requires s < |ids| && 0 < n && s + n <= |ids|
    requires forall j :: s <= j < s + n ==> ids[j] == ids[s]
    requires s + n < |ids| ==> ids[s + n] != ids[s]
    ensures n == RunLength(ids, s)
  {
    hide RunLength;
    var m := RunLength(ids, s);
    assert s + m < |ids| ==> ids[s + m] != ids[s];
  }

  /** Every sequence of ids records its ranges. */
  lemma RangesRecorded(ids: Ids)
    ensures Records(ids, Ranges(ids))
  {
    hide RunLength;
    var live := Ranges(ids);
    assert Runs(ids, live);
    forall j: nat | j < |ids| && ids[j] != 0
      ensures HasRange(live, j)
    {
      var s := RunStart(ids, j);
      assert InRange(live, s, j);
    }
    RangesDisjoint(ids);
  }

  lemma RangesDisjoint(ids: Ids)
    ensures Disjoint(Ranges(ids))
  {
    hide RunLength;
    var live := Ranges(ids);
    forall s, t, j | InRange(live, s, j) && InRange(live, t, j)
      ensures s == t
    {
      NotInside(ids, s, t, j);
      NotInside(ids, t, s, j);
    }
  }

  lemma NotInside(ids: Ids, s: nat, t: nat, j: nat)
    requires InRange(Ranges(ids), s, j) && InRange(Ranges(ids), t, j)
    ensures s >= t
  {
    assert forall k :: s <= k <= j ==> ids[k] == ids[s];
  }

  lemma {:induction false} RunStart(ids: Ids, j: nat) returns (s: nat)
    requires j < |ids| && ids[j] != 0
    ensures Starts(ids, s) && s <= j < s + RunLength(ids, s)
    decreases j
  {
    if j == 0 || ids[j - 1] != ids[j] {
      s := j;
    } else {
      s := RunStart(ids, j - 1);
      assert ids[s + RunLength(ids, s) - 1] == ids[s];
    }
  }

  // ---- Allocating and freeing ---------------------------------------------------------------------

  /** Painting a free run with an id that differs from both neighbours adds exactly that range. */
  lemma PaintAdds(ids: Ids, i: nat, n: nat, c: bv8)
    requires 0 < n && Fits(ids, i, n) && c != 0
    requires i > 0 ==> ids[i - 1] != c
    requires i + n < |ids| ==> ids[i + n] != c
    ensures Ranges(Paint(ids, i, n, c)) == Ranges(ids)[i := n]
  {
    hide Ranges, Records;
    RangesRecorded(ids);
    PaintRecords(ids, Ranges(ids), i, n, c);
    RecordsUnique(Paint(ids, i, n, c), Ranges(ids)[i := n]);
  }

  lemma PaintRecords(ids: Ids, live: map<nat, nat>, i: nat, n: nat, c: bv8)
    requires Records(ids, live) && 0 < n && Fits(ids, i, n) && c != 0
    requires i > 0 ==> ids[i - 1] != c
    requires i + n < |ids| ==> ids[i + n] != c
    ensures Records(Paint(ids, i, n, c), live[i := n])
  {
    PaintRuns(ids, live, i, n, c);
    PaintCovered(ids, live, i, n, c);
    PaintColoured(ids, live, i, n, c);
  }

  lemma PaintRuns(ids: Ids, live: map<nat, nat>, i: nat, n: nat, c: bv8)
    requires Runs(ids, live) && Disjoint(live) && 0 < n && Fits(ids, i, n) && c != 0
    ensures Runs(Paint(ids, i, n, c), live[i := n]) && Disjoint(live[i := n])
  {
    hide Paint;
    var ids', live' := Paint(ids, i, n, c), live[i := n];
    forall s: nat, j: nat | InRange(live', s, j)
      ensures s < |ids'| && j < |ids'| && ids'[j] == ids'[s] && ids'[j] != 0
      ensures if i <= j < i + n then s == i else InRange(live, s, j)
    {
      if s != i { assert InRange(live, s, j) && InRange(live, s, s); }
    }
    forall s | s in live' ensures InRange(live', s, s) {
      if s != i { assert InRange(live, s, s); }
    }
  }

  lemma PaintCovered(ids: Ids, live: map<nat, nat>, i: nat, n: nat, c: bv8)
    requires Runs(ids, live) && Covered(ids, live) && 0 < n && Fits(ids, i, n)
    ensures Covered(Paint(ids, i, n, c), live[i := n])
  {
    hide Paint;
    var ids', live' := Paint(ids, i, n, c), live[i := n];
    forall j: nat | j < |ids'| && ids'[j] != 0
      ensures HasRange(live', j)
    {
      if i <= j < i + n {
        assert InRange(live', i, j);
      } else {
        assert ids[j] != 0 && HasRange(live, j);
        var s: nat :| InRange(live, s, j);
        assert InRange(live, s, s);
        assert InRange(live', s, j);
      }
    }
  }

  lemma PaintColoured(ids: Ids, live: map<nat, nat>, i: nat, n: nat, c: bv8)
    requires Records(ids, live) && 0 < n && Fits(ids, i, n) && c != 0
    requires i > 0 ==> ids[i - 1] != c
    requires i + n < |ids| ==> ids[i + n] != c
    requires Runs(Paint(ids, i, n, c), live[i := n])
    ensures Coloured(Paint(ids, i, n, c), live[i := n])
  {
    hide Paint;
    var ids', live' := Paint(ids, i, n, c), live[i := n];
    forall s | s in live' && EndOf(live', s) in live'
      ensures InRange(live', s, s) && InRange(live', EndOf(live', s), EndOf(live', s)) && ids'[s] != ids'[EndOf(live', s)]
    {
      var e := EndOf(live', s);
      assert InRange(live', s, s) && InRange(live', e, e);
      if s != i {
        assert InRange(live, s, s) && InRange(live, s, e - 1);
        if e != i { assert EndOf(live, s) == e && InRange(live, e, e); }
      } else {
        assert InRange(live, e, e);
      }
    }
  }

  /** Clearing a range removes it and leaves every other range as it was. */
  lemma ClearRemoves(ids: Ids, s: nat)
    requires Starts(ids, s)
    ensures Ranges(Paint(ids, s, RunLength(ids, s), 0)) == Ranges(ids) - {s}
  {
    hide Ranges, Records;
    RangesRecorded(ids);
    assert s in Ranges(ids) && Ranges(ids)[s] == RunLength(ids, s) by { RangesAt(ids, s); }
    ClearRecords(ids, Ranges(ids), s);
    RecordsUnique(Paint(ids, s, RunLength(ids, s), 0), Ranges(ids) - {s});
  }

  lemma RangesAt(ids: Ids, s: nat)
    ensures s in Ranges(ids) <==> Starts(ids, s)
    ensures s in Ranges(ids) ==> Ranges(ids)[s] == RunLength(ids, s)
  {}

  lemma ClearRecords(ids: Ids, live: map<nat, nat>, s: nat)
    requires Records(ids, live) && s in live && EndOf(live, s) <= |ids|
    ensures Records(Paint(ids, s, live[s], 0), live - {s})
  {
    hide Paint;
    var ids', live' := Paint(ids, s, live[s], 0), live - {s};
    forall t: nat, j: nat | InRange(live', t, j)
      ensures t < |ids'| && j < |ids'| && ids'[j] == ids'[t] && ids'[j] != 0
      ensures InRange(live, t, j)
    {
      assert InRange(live, t, j) && InRange(live, t, t);
      assert !InRange(live, s, j) && !InRange(live, s, t);
    }
    forall j: nat | j < |ids'| && ids'[j] != 0
      ensures HasRange(live', j)
    {
      assert HasRange(live, j);
      var t: nat :| InRange(live, t, j);
      assert InRange(live', t, j);
    }
    forall t | t in live' ensures InRange(live', t, t) { assert InRange(live, t, t); }
    forall t | t in live' && EndOf(live', t) in live'
      ensures InRange(live', t, t) && InRange(live', EndOf(live', t), EndOf(live', t)) && ids'[t] != ids'[EndOf(live', t)]
    {
      var e := EndOf(live, t);
      assert EndOf(live', t) == e && InRange(live, t, t) && InRange(live, e, e);
      assert !InRange(live, s, t) && !InRange(live, s, e);
    }
  }

  /** Without that difference the new range is not recorded: it melts into a neighbour of its id. */
  lemma PaintAddsExactly(ids: Ids, i: nat, n: nat, c: bv8)
    requires 0 < n && Fits(ids, i, n) && c != 0
    ensures Ranges(Paint(ids, i, n, c)) == Ranges(ids)[i := n] <==>
              (i > 0 ==> ids[i - 1] != c) && (i + n < |ids| ==> ids[i + n] != c)
  {
    var ids' := Paint(ids, i, n, c);
    if (i > 0 ==> ids[i - 1] != c) && (i + n < |ids| ==> ids[i + n] != c) {
      PaintAdds(ids, i, n, c);
    } else if Ranges(ids') == Ranges(ids)[i := n] {
      hide Paint;
      RangesAt(ids', i);
      assert false;
    }
  }

  /** Freeing from the middle of a range shortens it to the part before. */
  lemma ClearTail(ids: Ids, s: nat, m: nat)
    requires Starts(ids, s) && s < m < s + RunLength(ids, s)
    ensures RunLength(ids, m) == s + RunLength(ids, s) - m
    ensures Ranges(Paint(ids, m, RunLength(ids, m), 0)) == Ranges(ids)[s := m - s]
  {
    hide Ranges, Records, RunLength;
    RunLengthUnique(ids, m, s + RunLength(ids, s) - m);
    RangesRecorded(ids);
    RangesAt(ids, s);
    TailRecords(ids, Ranges(ids), s, m);
    RecordsUnique(Paint(ids, m, RunLength(ids, m), 0), Ranges(ids)[s := m - s]);
  }

  lemma TailRecords(ids: Ids, live: map<nat, nat>, s: nat, m: nat)
    requires Records(ids, live) && s in live && s < m < EndOf(live, s) <= |ids|
    ensures Records(Paint(ids, m, EndOf(live, s) - m, 0), live[s := m - s])
  {
    hide Paint;
    var ids', live' := Paint(ids, m, EndOf(live, s) - m, 0), live[s := m - s];
    assert InRange(live, s, m) && !(m in live && InRange(live, m, m));
    forall t: nat, j: nat | InRange(live', t, j)
      ensures t < |ids'| && j < |ids'| && ids'[j] == ids'[t] && ids'[j] != 0
      ensures InRange(live, t, j)
    {
      assert InRange(live, t, j) && InRange(live, t, t);
      if t != s { assert !InRange(live, s, j) && !InRange(live, s, t); }
    }
    forall j: nat | j < |ids'| && ids'[j] != 0
      ensures HasRange(live', j)
    {
      assert HasRange(live, j);
      var t: nat :| InRange(live, t, j);
      assert InRange(live', t, j);
    }
    forall t | t in live' ensures InRange(live', t, t) { assert InRange(live, t, t); }
    forall t | t in live' && EndOf(live', t) in live'
      ensures InRange(live', t, t) && InRange(live', EndOf(live', t), EndOf(live', t)) && ids'[t] != ids'[EndOf(live', t)]
    {
      var e := EndOf(live', t);
      if t == s { assert false; }
      assert InRange(live, t, t) && InRange(live, e, e);
      assert EndOf(live, t) == e && !InRange(live, s, t);
      if e != s { assert !InRange(live, s, e); }
    }
  }

  // ---- Counting -----------------------------------------------------------------------------------

  lemma {:induction false} CountSet(ids: Ids, i: nat, c: bv8)
    requires i < |ids|
    ensures Count(ids[i := c]) == Count(ids) - (if ids[i] != 0 then 1 else 0) + (if c != 0 then 1 else 0)
    decreases |ids|
  {
    var n := |ids| - 1;
    if i < n {
      CountSet(ids[..n], i, c);
      assert ids[i := c][..n] == ids[..n][i := c];
    } else {
      assert ids[i := c][..n] == ids[..n];
    }
  }

  lemma {:induction false} CountBound(ids: Ids)
    ensures Count(ids) <= |ids|
  {
    if ids != [] { CountBound(ids[..|ids| - 1]); }
  }

  lemma PaintStep(ids: Ids, i: nat, n: nat, c: bv8)
    requires i + n < |ids|
    ensures Paint(ids, i, n, c)[i + n := c] == Paint(ids, i, n + 1, c)
  {}

  lemma PaintNone(ids: Ids, i: nat, c: bv8)
    requires i <= |ids|
    ensures Paint(ids, i, 0, c) == ids
  {}

  /** Allocating n free blocks raises the count by n. */
  lemma {:induction false} CountPaint(ids: Ids, i: nat, n: nat, c: bv8)
    requires i + n <= |ids| && c != 0 && forall j :: i <= j < i + n ==> ids[j] == 0
    ensures Count(Paint(ids, i, n, c)) == Count(ids) + n
    decreases n
  {
    hide Paint, Count;
    if n == 0 {
      PaintNone(ids, i, c);
    } else {
      CountPaint(ids, i, n - 1, c);
      PaintStep(ids, i, n - 1, c);
      CountSet(Paint(ids, i, n - 1, c), i + n - 1, c);
    }
  }

  /** Clearing n allocated blocks lowers it by n. */
  lemma {:induction false} CountClear(ids: Ids, i: nat, n: nat)
    requires i + n <= |ids| && forall j :: i <= j < i + n ==> ids[j] != 0
    ensures Count(Paint(ids, i, n, 0)) + n == Count(ids)
    decreases n
  {
    hide Paint, Count;
    if n == 0 {
      PaintNone(ids, i, 0);
    } else {
      var before := Paint(ids, i, n - 1, 0);
      CountClear(ids, i, n - 1);
      PaintStep(ids, i, n - 1, 0);
      CountSet(before, i + n - 1, 0);
    }
  }

  /** With fewer than n free blocks left no n fit. */
  lemma TooFull(ids: Ids, n: nat)
    requires |ids| - Count(ids) < n
    ensures NoFit(ids, n)
  {
    forall i: nat | i < |ids| ensures !Fits(ids, i, n) {
      if Fits(ids, i, n) {
        CountPaint(ids, i, n, 1);
        CountBound(Paint(ids, i, n, 1));
      }
    }
  }

  lemma {:induction false} CountZero(ids: Ids)
    requires forall i :: 0 <= i < |ids| ==> ids[i] == 0
    ensures Count(ids) == 0
  {
    if ids != [] { CountZero(ids[..|ids| - 1]); }
  }

  /** With the first m blocks allocated, the count is m exactly when no other block is. */
  lemma {:induction false} CountExact(ids: Ids, m: nat)
    requires m <= |ids| && forall j: nat :: j < m ==> ids[j] != 0
    ensures Count(ids) >= m
    ensures Count(ids) == m <==> forall j: nat :: m <= j < |ids| ==> ids[j] == 0
    decreases |ids|
  {
    if ids != [] {
      var n := |ids| - 1;
      if m <= n {
        CountExact(ids[..n], m);
        assert forall j: nat :: m <= j < n ==> ids[..n][j] == ids[j];
      } else {
        CountExact(ids[..n], n);
      }
    }
  }

  lemma FirstRange(ids: Ids, m: nat)
    requires 0 < m <= |ids| && (forall j: nat :: j < m ==> ids[j] == 1)
    requires m < |ids| ==> ids[m] == 0
    ensures 0 in Ranges(ids) && Ranges(ids)[0] == m
  {
    RunLengthUnique(ids, 0, m);
  }

  // ---- Which id an allocation gets ----------------------------------------------------------------

  /** bm_unique_id. */
  function UniqueId(a: bv8, b: bv8): bv8 {
    if a != 1 && b != 1 then 1 else if a != 2 && b != 2 then 2 else 3
  }

  function LeftShown(v: Version, ids: Ids, k: nat): bv8
    requires k <= |ids|
  {
    if k > 0 then Shown(v, ids[k - 1], (k - 1) % 4) else 0
  }

  /** The source's bound is one less than the number of blocks, so it never looks at the last one. */
  function RightShown(v: Version, ids: Ids, e: nat): bv8
    requires e <= |ids|
  {
    if e < (if v == Written then |ids| - 1 else |ids|) then Shown(v, ids[e], e % 4) else 0
  }

  /** The id given to n blocks allocated at k. */
  function ChosenId(v: Version, ids: Ids, k: nat, n: nat): bv8
    requires k + n <= |ids|
  {
    UniqueId(LeftShown(v, ids, k), RightShown(v, ids, k + n))
  }

  /** A neighbour that carries the chosen id unnoticed: it is outside column 0, where get_bm shows it
      shifted, or it is the last block, which is not looked at. */
  predicate Clash(ids: Ids, k: nat, n: nat)
    requires k + n <= |ids|
  {
    var c := ChosenId(Written, ids, k, n);
    || (k > 0 && (k - 1) % 4 != 0 && ids[k - 1] == c)
    || (k + n < |ids| && ((k + n) % 4 != 0 || k + n == |ids| - 1) && ids[k + n] == c)
  }

  ghost predicate SmallIds(ids: Ids) {
    forall j :: 0 <= j < |ids| ==> ids[j] <= 3
  }

  lemma ShownColumn(f: bv8, k: nat, c: bv8)
    requires k < 4 && f <= 3 && 1 <= c <= 3
    ensures Shown(Written, f, k) == c <==> k == 0 && f == c
  {
    if k == 0 {} else if k == 1 {} else if k == 2 {} else {}
  }

  /** The allocation records its range and leaves the others alone in the repaired version always, and
      in the source's exactly when no neighbour clashes. */
  lemma ChosenRecorded(v: Version, ids: Ids, k: nat, n: nat)
    requires 0 < n && Fits(ids, k, n) && SmallIds(ids)
    ensures Ranges(Paint(ids, k, n, ChosenId(v, ids, k, n))) == Ranges(ids)[k := n] <==>
              (v == Repaired || !Clash(ids, k, n))
  {
    var c := ChosenId(v, ids, k, n);
    PaintAddsExactly(ids, k, n, c);
    hide Ranges, Paint;
    if v == Written {
      if k > 0 { ShownColumn(ids[k - 1], (k - 1) % 4, c); }
      if k + n < |ids| { ShownColumn(ids[k + n], (k + n) % 4, c); }
    }
  }

  /** len blocks from s can be copied to block i: they stay inside the region and do not meet. */
  predicate CopyFits(ids: Ids, s: nat, i: nat, len: nat) {
    i + len <= |ids| && (s + len <= i || i + len <= s)
  }

  /** Moving a range to one no shorter, bm_realloc's copy always fits. */
  lemma GrowingFits(ids: Ids, s: nat, i: nat, n: nat)
    requires Starts(ids, s) && Fits(ids, i, n) && RunLength(ids, s) <= n
    ensures CopyFits(ids, s, i, RunLength(ids, s))
  {
    hide RunLength;
    var len := RunLength(ids, s);
    assert forall j :: s <= j < s + len ==> ids[j] == ids[s];
    if i < s { assert i + n <= s; }
  }

  /** The copy of len blocks to a new range of n writes into no range exactly when the new range is no
      shorter or the blocks behind it that the copy reaches are free. */
  lemma CopySpares(ids: Ids, i: nat, n: nat, len: nat)
    requires Fits(ids, i, n) && i + len <= |ids|
    ensures (forall r: nat, j: nat :: InRange(Ranges(ids), r, j) ==> !(i <= j < i + len))
            <==> len <= n || forall j: nat :: i + n <= j < i + len ==> ids[j] == 0
  {
    RangesRecorded(ids);
    hide Ranges, RunLength, Starts;
    if j: nat :| i + n <= j < i + len && ids[j] != 0 {
      assert HasRange(Ranges(ids), j);
    }
  }

  /** Shrinking can write into another range: two blocks moved to a one-block gap in front of it. */
  lemma ShrinkingOverwrites()
    ensures var ids := [1, 0, 2, 1, 2, 2, 0, 0];
            && Starts(ids, 4) && RunLength(ids, 4) == 2 && Lowest(ids, 1, 1) && CopyFits(ids, 4, 1, 2)
            && 2 in Ranges(ids) && InRange(Ranges(ids), 2, 2) && 1 <= 2 < 1 + 2
  {
    var ids: Ids := [1, 0, 2, 1, 2, 2, 0, 0];
    RunLengthUnique(ids, 4, 2);
    RunLengthUnique(ids, 2, 1);
    RangesAt(ids, 2);
  }

  /** In a fresh region of eight blocks the source gives the third one-block allocation the id of the
      second, so the two can no longer be told apart. */
  lemma ThirdAllocationMelts()
    ensures var fresh_ := [1, 0, 0, 0, 0, 0, 0, 0];
            var first := Paint(fresh_, 1, 1, ChosenId(Written, fresh_, 1, 1));
            var second := Paint(first, 2, 1, ChosenId(Written, first, 2, 1));
            var third := Paint(second, 3, 1, ChosenId(Written, second, 3, 1));
            second[2] == third[3] && 3 !in Ranges(third)
  {
    var fresh_: Ids := [1, 0, 0, 0, 0, 0, 0, 0];
    var first := Paint(fresh_, 1, 1, ChosenId(Written, fresh_, 1, 1));
    assert first == [1, 2, 0, 0, 0, 0, 0, 0];
    var second := Paint(first, 2, 1, ChosenId(Written, first, 2, 1));
    assert second == [1, 2, 1, 0, 0, 0, 0, 0];
    var third := Paint(second, 3, 1, ChosenId(Written, second, 3, 1));
    assert third == [1, 2, 1, 1, 0, 0, 0, 0];
    RangesAt(third, 3);
  }

  // ---- Runs of allocations ------------------------------------------------------------------------

  /** A run in which step k allocates sizes[k] blocks at starts[k] and no block is cleared, as in every
      run of the source's own version. */
  ghost predicate AllocRun(states: seq<Ids>, starts: seq<nat>, sizes: seq<nat>) {
    && |states| == |starts| + 1 && |sizes| == |starts|
    && forall k :: 0 <= k < |starts| ==> AllocStep(states[k], states[k + 1], starts[k], sizes[k])
  }

  ghost predicate AllocStep(was: Ids, now: Ids, i: nat, n: nat) {
    && |now| == |was| && Fits(was, i, n)
    && (forall j :: 0 <= j < |was| && was[j] != 0 ==> now[j] != 0)
    && (forall j :: i <= j < i + n ==> now[j] != 0)
  }

  lemma {:induction false} StaysTaken(states: seq<Ids>, starts: seq<nat>, sizes: seq<nat>, a: nat, b: nat, j: nat)
    requires AllocRun(states, starts, sizes) && a <= b <= |starts| && j < |states[a]| && states[a][j] != 0
    ensures j < |states[b]| && states[b][j] != 0
    decreases b - a
  {
    if a < b {
      assert AllocStep(states[a], states[a + 1], starts[a], sizes[a]);
      StaysTaken(states, starts, sizes, a + 1, b, j);
    }
  }

  /** No two results overlap, and none overlaps a block that was taken at the start. */
  lemma NeverOverlap(states: seq<Ids>, starts: seq<nat>, sizes: seq<nat>, a: nat, b: nat)
    requires AllocRun(states, starts, sizes) && a < b < |starts|
    ensures starts[a] + sizes[a] <= starts[b] || starts[b] + sizes[b] <= starts[a] || sizes[a] == 0
    ensures forall j :: 0 <= j < |states[0]| && states[0][j] != 0 ==> !(starts[b] <= j < starts[b] + sizes[b])
  {
    assert AllocStep(states[a], states[a + 1], starts[a], sizes[a]);
    assert AllocStep(states[b], states[b + 1], starts[b], sizes[b]);
    var x := if starts[a] < starts[b] then starts[b] else starts[a];
    if starts[a] <= x < starts[a] + sizes[a] {
      StaysTaken(states, starts, sizes, a + 1, b, x);
    }
    forall j | 0 <= j < |states[0]| && states[0][j] != 0
      ensures !(starts[b] <= j < starts[b] + sizes[b])
    {
      StaysTaken(states, starts, sizes, 0, b, j);
    }
  }
}
