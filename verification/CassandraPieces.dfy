/** Archives whose every file sits at one accepted depth, entry by entry reduced to
    what the walk files. On these the walk's end depends only on the set of files. */
module CassandraPieces {
  import opened Bytes
  import opened Ordering
  import opened CassandraFacts
  import opened CassandraCensus
  import opened CassandraArchive
  import opened CassandraBudget

  datatype Piece =
    | Nameless                                    // nothing left of the name
    | Beside                                      // seen, not filed
    | Filing(ref: TableRef, base: Text, body: Body)

  predicate Fits(depth: nat, e: Entry) {
    || e.segments == []
    || (&& TarLiveMarker(e.segments) == []
        && (e.regular ==> |e.segments| == depth + 3 && (TouchesBody(Base(e)) ==> e.readable)))
  }

  function PieceOf(depth: nat, e: Entry): Piece {
    if e.segments == [] then Nameless
    else if !e.regular || |e.segments| != depth + 3 then Beside
    else Filing(TableRef(e.segments[depth], e.segments[depth + 1]), Base(e), e.body)
  }

  ghost predicate AllFit(depth: nat, entries: seq<Entry>) {
    forall i :: 0 <= i < |entries| ==> Fits(depth, entries[i])
  }

  function Pieces(depth: nat, entries: seq<Entry>): seq<Piece> {
    Map((e: Entry) => PieceOf(depth, e), entries)
  }

  lemma PiecesSnoc(depth: nat, entries: seq<Entry>, e: Entry)
    ensures Pieces(depth, entries + [e]) == Pieces(depth, entries) + [PieceOf(depth, e)]
  {
    var all := Pieces(depth, entries + [e]);
    assert all[..|entries|] == Pieces(depth, entries);
    assert all[|entries|] == PieceOf(depth, e);
  }

  lemma AllFitSnoc(depth: nat, entries: seq<Entry>, e: Entry)
    ensures AllFit(depth, entries + [e]) <==> AllFit(depth, entries) && Fits(depth, e)
  {
    var all := entries + [e];
    assert all[|entries|] == e;
    assert forall i :: 0 <= i < |entries| ==> all[i] == entries[i];
  }

  function PieceCharge(p: Piece): Kept {
    if p.Filing? then FileCharge(Kept(0, 0), p.base, p.body) else Kept(0, 0)
  }

  function FilesAt(snapshot: map<TableRef, map<Text, Body>>, ref: TableRef): map<Text, Body> {
    if ref in snapshot then snapshot[ref] else map[]
  }

  /** The walk's state with the files met in place of what they state. */
  datatype Snap = Snap(files: map<TableRef, map<Text, Body>>, sawEntry: bool, depthBase: int, kept: Kept)

  const SNAP_START := Snap(map[], false, -1, Kept(0, 0))

  /** The walk's state is this one, its facts those the files met state. */
  ghost predicate Reflects(st: WalkState, s: Snap) {
    && StatesAll(st.tables, s.files)
    && st.sawEntry == s.sawEntry && st.depthBase == s.depthBase && st.kept == s.kept
  }

  function SnapPiece(depth: nat, s: Snap, p: Piece): Snap {
    match p
    case Nameless => s
    case Beside => s.(sawEntry := true)
    case Filing(ref, base, body) =>
      Snap(s.files[ref := FilesAt(s.files, ref)[base := body]], true, depth, Plus(s.kept, PieceCharge(p)))
  }

  function SnapAll(depth: nat, pieces: seq<Piece>): Snap {
    if pieces == [] then SNAP_START
    else SnapPiece(depth, SnapAll(depth, pieces[..|pieces| - 1]), pieces[|pieces| - 1])
  }

  lemma {:induction false} SnapKeepsDepth(depth: nat, pieces: seq<Piece>)
    ensures var base := SnapAll(depth, pieces).depthBase; base == -1 || base == depth
  {
    if pieces != [] {
      SnapKeepsDepth(depth, pieces[..|pieces| - 1]);
    }
  }

  lemma StatesAllWith(tables: map<TableRef, Facts>, met: map<TableRef, map<Text, Body>>, ref: TableRef, f: Facts, files: map<Text, Body>)
    requires StatesAll(tables, met) && States(f, files)
    ensures StatesAll(tables[ref := f], met[ref := files])
  {
    var more, all := tables[ref := f], met[ref := files];
    forall r {:trigger States(more[r], all[r])} | r in more ensures States(more[r], all[r]) {
      assert r != ref ==> States(tables[r], met[r]);
    }
  }

  lemma FiledStates(tables: map<TableRef, Facts>, met: map<TableRef, map<Text, Body>>, ref: TableRef, name: Text, body: Body)
    requires StatesAll(tables, met) && name !in FilesAt(met, ref)
    ensures StatesAll(Filed(tables, ref, name, body), met[ref := FilesAt(met, ref)[name := body]])
  {
    NothingStated();
    if ref in tables {
      assert States(tables[ref], met[ref]);
    }
    RecordExtends(FactsAt(tables, ref), FilesAt(met, ref), name, body);
    StatesAllWith(tables, met, ref, Record(FactsAt(tables, ref), name, body), FilesAt(met, ref)[name := body]);
  }

  lemma OutcomeThatFits(k: Kept, base: Text, e: Entry)
    requires TouchesBody(base) ==> e.readable
    ensures FileOutcome(k, base, e) == if Affordable(FileCharge(k, base, e.body)) then Recorded else OverBudget
    ensures FileCharge(k, base, e.body) == Plus(k, FileCharge(Kept(0, 0), base, e.body))
  {
  }

  /** The walk took the step the piece describes, or could not pay for it. */
  ghost predicate Took(out: WalkOutcome, next: Snap) {
    if Affordable(next.kept) then out.Continue? && Reflects(out.state, next) else out == Refuse(TooMuchKept)
  }

  /** A file of the one depth, not filed before: filed and paid for, or one too many. */
  lemma FileThatFits(depth: nat, st: WalkState, s: Snap, e: Entry)
    requires Reflects(st, s)
    requires depth <= 1 && Fits(depth, e) && Filable(e) && (s.depthBase == -1 || s.depthBase == depth)
    requires Base(e) !in FilesAt(s.files, TableRef(e.segments[depth], e.segments[depth + 1]))
    ensures Took(WalkFile(st, e), SnapPiece(depth, s, PieceOf(depth, e)))
  {
    OutcomeThatFits(s.kept, Base(e), e);
    FiledStates(st.tables, s.files, TableRef(e.segments[depth], e.segments[depth + 1]), Base(e), e.body);
  }

  lemma FilableIsWalked(depth: nat, st: WalkState, e: Entry)
    requires Fits(depth, e) && Filable(e)
    ensures WalkEntry(st, e) == WalkFile(st, e)
  {
  }

  lemma OtherIsPassed(depth: nat, st: WalkState, s: Snap, e: Entry)
    requires Reflects(st, s) && Affordable(s.kept) && Fits(depth, e) && !Filable(e)
    ensures Took(WalkEntry(st, e), SnapPiece(depth, s, PieceOf(depth, e)))
  {
  }

  lemma EntryIsPiece(depth: nat, st: WalkState, s: Snap, e: Entry)
    requires Reflects(st, s) && Affordable(s.kept)
    requires depth <= 1 && Fits(depth, e) && (s.depthBase == -1 || s.depthBase == depth)
    requires var p := PieceOf(depth, e); p.Filing? ==> p.base !in FilesAt(s.files, p.ref)
    ensures Took(WalkEntry(st, e), SnapPiece(depth, s, PieceOf(depth, e)))
  {
    if Filable(e) {
      FilableIsWalked(depth, st, e);
      FileThatFits(depth, st, s, e);
    } else {
      OtherIsPassed(depth, st, s, e);
    }
  }

  lemma ChargeIsPieceCharge(depth: nat, e: Entry)
    requires Fits(depth, e)
    ensures ChargeOf(e) == PieceCharge(PieceOf(depth, e))
  {
  }

  lemma SnapPieceCosts(depth: nat, s: Snap, p: Piece)
    ensures SnapPiece(depth, s, p).kept == Plus(s.kept, PieceCharge(p))
  {
  }

  lemma {:induction false} SnapCosts(depth: nat, pieces: seq<Piece>)
    ensures SnapAll(depth, pieces).kept == TotalOf(PieceCharge, pieces)
  {
    if pieces != [] {
      var init := pieces[..|pieces| - 1];
      SnapCosts(depth, init);
      SnapPieceCosts(depth, SnapAll(depth, init), pieces[|pieces| - 1]);
    }
  }

  lemma ChargesAgree(depth: nat, entries: seq<Entry>)
    requires AllFit(depth, entries)
    ensures Map(ChargeOf, entries) == Map(PieceCharge, Pieces(depth, entries))
  {
    forall i | 0 <= i < |entries| ensures ChargeOf(entries[i]) == PieceCharge(PieceOf(depth, entries[i])) {
      ChargeIsPieceCharge(depth, entries[i]);
    }
  }

  lemma SnapPays(depth: nat, entries: seq<Entry>)
    requires AllFit(depth, entries)
    ensures SnapAll(depth, Pieces(depth, entries)).kept == TotalCharge(entries)
  {
    SnapCosts(depth, Pieces(depth, entries));
    TotalOfIsTotal(PieceCharge, Pieces(depth, entries));
    ChargesAgree(depth, entries);
  }

  // The files listed, and the state they lead to.

  ghost predicate DistinctFilings(pieces: seq<Piece>) {
    forall i, j :: 0 <= i < j < |pieces| && pieces[i].Filing? && pieces[j].Filing? ==>
      pieces[i].ref != pieces[j].ref || pieces[i].base != pieces[j].base
  }

  /** The files listed, table by table. */
  function Collect(pieces: seq<Piece>): map<TableRef, map<Text, Body>> {
    SnapAll(0, pieces).files
  }

  lemma {:induction false} CollectAnyDepth(depth: nat, pieces: seq<Piece>)
    ensures SnapAll(depth, pieces).files == Collect(pieces)
  {
    if pieces != [] {
      CollectAnyDepth(depth, pieces[..|pieces| - 1]);
    }
  }

  /** Every table collected has a file, and every file collected was listed. */
  lemma {:induction false} CollectFrom(pieces: seq<Piece>, ref: TableRef)
    requires ref in Collect(pieces)
    ensures Collect(pieces)[ref] != map[]
    ensures forall name :: name in Collect(pieces)[ref] ==> Filing(ref, name, Collect(pieces)[ref][name]) in pieces
  {
    var init, p := pieces[..|pieces| - 1], pieces[|pieces| - 1];
    if ref in Collect(init) {
      CollectFrom(init, ref);
    }
    if p.Filing? && p.ref == ref {
      assert p.base in Collect(pieces)[ref];
    }
  }

  /** Every file listed is collected, when none is listed twice. */
  lemma {:induction false} CollectHolds(pieces: seq<Piece>)
    requires DistinctFilings(pieces)
    ensures forall p :: p in pieces && p.Filing? ==>
              p.ref in Collect(pieces) && p.base in Collect(pieces)[p.ref] && Collect(pieces)[p.ref][p.base] == p.body
  {
    if pieces != [] {
      var init, last := pieces[..|pieces| - 1], pieces[|pieces| - 1];
      CollectHolds(init);
      assert forall p :: p in pieces <==> p in init || p == last;
    }
  }

  /** The file listed last is new to what was collected before it. */
  lemma LastIsNew(pieces: seq<Piece>)
    requires pieces != [] && DistinctFilings(pieces) && pieces[|pieces| - 1].Filing?
    ensures var p := pieces[|pieces| - 1];
            p.base !in FilesAt(Collect(pieces[..|pieces| - 1]), p.ref)
  {
    var init, p := pieces[..|pieces| - 1], pieces[|pieces| - 1];
    if p.ref in Collect(init) {
      CollectFrom(init, p.ref);
    }
  }

  ghost predicate SawEntry(pieces: seq<Piece>) {
    exists p :: p in pieces && !p.Nameless?
  }

  ghost predicate SawFile(pieces: seq<Piece>) {
    exists p :: p in pieces && p.Filing?
  }

  lemma {:induction false} SnapSaw(depth: nat, pieces: seq<Piece>)
    ensures SnapAll(depth, pieces).sawEntry <==> SawEntry(pieces)
    ensures SnapAll(depth, pieces).depthBase == if SawFile(pieces) then depth else -1
  {
    if pieces != [] {
      var init, p := pieces[..|pieces| - 1], pieces[|pieces| - 1];
      SnapSaw(depth, init);
      assert forall q :: q in pieces <==> q in init || q == p;
    }
  }

  lemma NextOfFitting(depth: nat, st: WalkState, entries: seq<Entry>, e: Entry)
    requires depth <= 1 && AllFit(depth, entries) && Fits(depth, e)
    requires DistinctFilings(Pieces(depth, entries) + [PieceOf(depth, e)])
    requires Affordable(TotalCharge(entries)) && Reflects(st, SnapAll(depth, Pieces(depth, entries)))
    ensures Took(WalkEntry(st, e), SnapAll(depth, Pieces(depth, entries) + [PieceOf(depth, e)]))
  {
    var pieces, p := Pieces(depth, entries), PieceOf(depth, e);
    assert (pieces + [p])[..|pieces|] == pieces;
    SnapPays(depth, entries);
    SnapKeepsDepth(depth, pieces);
    CollectAnyDepth(depth, pieces);
    if p.Filing? {
      LastIsNew(pieces + [p]);
    }
    EntryIsPiece(depth, st, SnapAll(depth, pieces), e);
  }

  lemma DistinctPrefix(pieces: seq<Piece>, p: Piece)
    requires DistinctFilings(pieces + [p])
    ensures DistinctFilings(pieces)
  {
    assert forall i :: 0 <= i < |pieces| ==> (pieces + [p])[i] == pieces[i];
  }

  /** On entries that fit one depth and list no file twice, the walk gathers what the
      files state and pays for them, as long as it can. */
  lemma {:induction false} WalkOfFitting(depth: nat, entries: seq<Entry>)
    requires depth <= 1 && AllFit(depth, entries) && DistinctFilings(Pieces(depth, entries))
    ensures Took(WalkAll(entries), SnapAll(depth, Pieces(depth, entries)))
    ensures SnapAll(depth, Pieces(depth, entries)).kept == TotalCharge(entries)
  {
    SnapPays(depth, entries);
    if entries != [] {
      var init, e := entries[..|entries| - 1], entries[|entries| - 1];
      assert entries == init + [e];
      AllFitSnoc(depth, init, e);
      PiecesSnoc(depth, init, e);
      DistinctPrefix(Pieces(depth, init), PieceOf(depth, e));
      TotalChargeSnoc(entries);
      WalkOfFitting(depth, init);
      if Affordable(TotalCharge(init)) {
        NextOfFitting(depth, WalkAll(init).state, init, e);
      }
    }
  }

  lemma CollectWithin(pieces: seq<Piece>, more: seq<Piece>)
    requires DistinctFilings(more)
    requires forall p :: p in pieces ==> p in more
    ensures forall ref :: ref in Collect(pieces) ==> ref in Collect(more)
    ensures forall ref, name :: ref in Collect(pieces) && name in Collect(pieces)[ref] ==>
              name in Collect(more)[ref] && Collect(more)[ref][name] == Collect(pieces)[ref][name]
  {
    CollectHolds(more);
    forall ref | ref in Collect(pieces)
      ensures ref in Collect(more)
      ensures forall name :: name in Collect(pieces)[ref] ==>
                name in Collect(more)[ref] && Collect(more)[ref][name] == Collect(pieces)[ref][name]
    {
      CollectFrom(pieces, ref);
      var name :| name in Collect(pieces)[ref];
      assert Filing(ref, name, Collect(pieces)[ref][name]) in more;
    }
  }

  /** The same files listed, each once, collect to the same snapshot. */
  lemma CollectSetOnly(pieces: seq<Piece>, shuffled: seq<Piece>)
    requires DistinctFilings(pieces) && DistinctFilings(shuffled)
    requires forall p :: p in pieces <==> p in shuffled
    ensures Collect(pieces) == Collect(shuffled)
  {
    CollectWithin(pieces, shuffled);
    CollectWithin(shuffled, pieces);
    var a, b := Collect(pieces), Collect(shuffled);
    forall ref | ref in a ensures a[ref] == b[ref] {
      assert forall name :: name in a[ref] <==> name in b[ref];
    }
  }

  lemma {:induction false} DistinctByCount(pieces: seq<Piece>)
    requires forall p, q :: p in pieces && q in pieces && p.Filing? && q.Filing? && p.ref == q.ref && p.base == q.base ==> p == q
    requires forall p: Piece :: p.Filing? ==> multiset(pieces)[p] <= 1
    ensures DistinctFilings(pieces)
  {
    if pieces != [] {
      var rest := pieces[1..];
      assert pieces == [pieces[0]] + rest;
      assert forall p :: multiset(pieces)[p] == multiset{pieces[0]}[p] + multiset(rest)[p];
      DistinctByCount(rest);
      assert pieces[0].Filing? ==> pieces[0] !in multiset(rest);
    }
  }

  lemma {:induction false} CountOfDistinct(pieces: seq<Piece>)
    requires DistinctFilings(pieces)
    ensures forall p: Piece :: p.Filing? ==> multiset(pieces)[p] <= 1
  {
    if pieces != [] {
      var rest := pieces[1..];
      assert pieces == [pieces[0]] + rest;
      assert forall p :: multiset(pieces)[p] == multiset{pieces[0]}[p] + multiset(rest)[p];
      CountOfDistinct(rest);
      assert pieces[0].Filing? ==> pieces[0] !in rest;
    }
  }

  lemma ShuffledDistinct(pieces: seq<Piece>, shuffled: seq<Piece>)
    requires DistinctFilings(pieces) && multiset(pieces) == multiset(shuffled)
    ensures DistinctFilings(shuffled)
  {
    SameMembers(pieces, shuffled);
    CountOfDistinct(pieces);
    DistinctByCount(shuffled);
  }

  /** A walk that went on throughout met only entries that fit one depth. */
  lemma EntryThatContinued(st: WalkState, e: Entry)
    requires WalkEntry(st, e).Continue?
    ensures var now := WalkEntry(st, e).state.depthBase;
            if Filable(e) then 0 <= now <= 1 && (st.depthBase == -1 || st.depthBase == now) && Fits(now, e)
            else now == st.depthBase && Fits(0, e) && Fits(1, e)
  {
  }

  ghost predicate FitsLearnt(depthBase: int, entries: seq<Entry>) {
    && -1 <= depthBase <= 1
    && (if depthBase == -1 then AllFit(0, entries) && AllFit(1, entries) else AllFit(depthBase, entries))
  }

  lemma {:induction false} ContinueFits(entries: seq<Entry>)
    requires WalkAll(entries).Continue?
    ensures FitsLearnt(WalkAll(entries).state.depthBase, entries)
  {
    if entries != [] {
      var init, e := entries[..|entries| - 1], entries[|entries| - 1];
      ContinueFits(init);
      EntryThatContinued(WalkAll(init).state, e);
      FitsLearntNext(WalkAll(init).state.depthBase, init, e, WalkAll(entries).state.depthBase);
      assert entries == init + [e];
    }
  }

  lemma FitsLearntNext(was: int, entries: seq<Entry>, e: Entry, now: int)
    requires FitsLearnt(was, entries) && -1 <= now <= 1 && (was == -1 || now == was)
    requires if now == -1 then Fits(0, e) && Fits(1, e) else Fits(now, e)
    ensures FitsLearnt(now, entries + [e])
  {
    AllFitSnoc(0, entries, e);
    AllFitSnoc(1, entries, e);
  }

  lemma ShuffledFit(depth: nat, entries: seq<Entry>, shuffled: seq<Entry>)
    requires AllFit(depth, entries) && multiset(entries) == multiset(shuffled)
    ensures AllFit(depth, shuffled)
  {
    SameMembers(entries, shuffled);
    forall i | 0 <= i < |shuffled| ensures Fits(depth, shuffled[i]) {
      assert shuffled[i] in entries;
    }
  }

  /** The layout a finished walk learnt; 0 when it met no file. */
  function LearntDepth(st: WalkState): nat {
    if st.depthBase < 0 then 0 else st.depthBase
  }

  /** The snapshot, layout and cost of a list of distinct files do not depend on its
      order. */
  lemma SnapOrderFree(depth: nat, pieces: seq<Piece>, shuffled: seq<Piece>)
    requires DistinctFilings(pieces) && multiset(pieces) == multiset(shuffled)
    ensures DistinctFilings(shuffled)
    ensures SnapAll(depth, shuffled).(kept := Kept(0, 0)) == SnapAll(depth, pieces).(kept := Kept(0, 0))
  {
    ShuffledDistinct(pieces, shuffled);
    SameMembers(pieces, shuffled);
    CollectSetOnly(pieces, shuffled);
    CollectAnyDepth(depth, pieces);
    CollectAnyDepth(depth, shuffled);
    SnapSaw(depth, pieces);
    SnapSaw(depth, shuffled);
  }

  /** An archive that lists no file twice is walked to the same end in any order: the
      same facts for the same tables, the same layout, the same charge. */
  lemma WalkOrderFree(entries: seq<Entry>, shuffled: seq<Entry>)
    requires multiset(entries) == multiset(shuffled)
    requires WalkAll(entries).Continue?
    requires DistinctFilings(Pieces(LearntDepth(WalkAll(entries).state), entries))
    ensures WalkAll(shuffled) == WalkAll(entries)
  {
    var depth := LearntDepth(WalkAll(entries).state);
    ContinueFits(entries);
    ShuffledFit(depth, entries, shuffled);
    MapOrderFree((e: Entry) => PieceOf(depth, e), entries, shuffled);
    SnapOrderFree(depth, Pieces(depth, entries), Pieces(depth, shuffled));
    ChargeOrderFree(entries, shuffled);
    WalkOfFitting(depth, entries);
    WalkOfFitting(depth, shuffled);
    StatesAllUnique(WalkAll(entries).state.tables, WalkAll(shuffled).state.tables, SnapAll(depth, Pieces(depth, entries)).files);
  }
}
