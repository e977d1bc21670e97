/** What an archive walk may keep, and what of it depends on the order the archive
    lists its entries in: nothing. */
module CassandraBudget {
  import opened Bytes
  import opened Ordering
  import opened CassandraFacts
  import opened CassandraCensus
  import opened CassandraArchive

  function Base(e: Entry): Text
    requires e.segments != []
  {
    e.segments[|e.segments| - 1]
  }

  /** A regular file under a non-empty name: what the walk files and charges. */
  predicate Filable(e: Entry) {
    e.regular && e.segments != []
  }

  function Plus(a: Kept, b: Kept): Kept {
    Kept(a.entries + b.entries, a.bytes + b.bytes)
  }

  function ChargeOf(e: Entry): Kept {
    if Filable(e) then FileCharge(Kept(0, 0), Base(e), e.body) else Kept(0, 0)
  }

  function Total(charges: seq<Kept>): Kept {
    if charges == [] then Kept(0, 0)
    else Plus(Total(charges[..|charges| - 1]), charges[|charges| - 1])
  }

  function TotalCharge(entries: seq<Entry>): Kept {
    Total(Map(ChargeOf, entries))
  }

  lemma TotalChargeSnoc(entries: seq<Entry>)
    requires entries != []
    ensures TotalCharge(entries) == Plus(TotalCharge(entries[..|entries| - 1]), ChargeOf(entries[|entries| - 1]))
  {
    MapSnoc(ChargeOf, entries);
  }

  // What the walk holds on to.

  function NamesKept(tables: map<TableRef, Facts>): set<(TableRef, Text)> {
    set ref, name | ref in tables && name in tables[ref].entries :: (ref, name)
  }

  function BodiesKept(tables: map<TableRef, Facts>): set<(TableRef, Text)> {
    set kept | kept in NamesKept(tables) && KeepsBody(kept.1)
  }

  ghost function NameBytes(kept: set<(TableRef, Text)>): nat {
    if kept == {} then 0
    else
      var k :| k in kept;
      |k.1| + NameBytes(kept - {k})
  }

  lemma {:induction false} NameBytesAdd(kept: set<(TableRef, Text)>, k: (TableRef, Text))
    requires k !in kept
    ensures NameBytes(kept + {k}) == NameBytes(kept) + |k.1|
  {
    var all := kept + {k};
    var picked :| picked in all && NameBytes(all) == |picked.1| + NameBytes(all - {picked});
    if picked == k {
      assert all - {picked} == kept;
    } else {
      NameBytesRemove(kept, picked);
      assert all - {picked} == (kept - {picked}) + {k};
      NameBytesAdd(kept - {picked}, k);
    }
  }

  lemma {:induction false} NameBytesRemove(kept: set<(TableRef, Text)>, k: (TableRef, Text))
    requires k in kept
    ensures NameBytes(kept) == |k.1| + NameBytes(kept - {k})
    decreases |kept|, 0
  {
    var picked :| picked in kept && NameBytes(kept) == |picked.1| + NameBytes(kept - {picked});
    if picked != k {
      NameBytesRemove(kept - {picked}, k);
      NameBytesRemove(kept - {k}, picked);
      assert kept - {picked} - {k} == kept - {k} - {picked};
    }
  }

  lemma RecordNames(f: Facts, name: Text, body: Body)
    ensures Record(f, name, body).entries == f.entries + {name}
  {
  }

  lemma FiledNames(tables: map<TableRef, Facts>, ref: TableRef, base: Text, body: Body)
    ensures NamesKept(Filed(tables, ref, base, body)) == NamesKept(tables) + {(ref, base)}
  {
    RecordNames(FactsAt(tables, ref), base, body);
    var more := Filed(tables, ref, base, body);
    forall k ensures k in NamesKept(more) <==> k in NamesKept(tables) + {(ref, base)} {
      assert k in NamesKept(more) <==> k.0 in more && k.1 in more[k.0].entries;
      assert k in NamesKept(tables) <==> k.0 in tables && k.1 in tables[k.0].entries;
    }
  }

  /** The bodies read, each where it is filed; a name met again has the later one. */
  type Bodies = map<(TableRef, Text), Body>

  ghost function BodyBytes(bodies: Bodies): nat {
    if bodies == map[] then 0
    else
      var k :| k in bodies;
      CappedLength(bodies[k]) + BodyBytes(bodies - {k})
  }

  lemma {:induction false} BodyBytesRemove(bodies: Bodies, k: (TableRef, Text))
    requires k in bodies
    ensures BodyBytes(bodies) == CappedLength(bodies[k]) + BodyBytes(bodies - {k})
    decreases |bodies|
  {
    var picked :| picked in bodies && BodyBytes(bodies) == CappedLength(bodies[picked]) + BodyBytes(bodies - {picked});
    if picked != k {
      assert |bodies - {picked}| < |bodies| && |bodies - {k}| < |bodies|;
      BodyBytesRemove(bodies - {picked}, k);
      BodyBytesRemove(bodies - {k}, picked);
      assert bodies - {picked} - {k} == bodies - {k} - {picked};
    }
  }

  lemma BodyBytesAdd(bodies: Bodies, k: (TableRef, Text), body: Body)
    ensures BodyBytes(bodies[k := body]) <= BodyBytes(bodies) + CappedLength(body)
  {
    BodyBytesRemove(bodies[k := body], k);
    if k in bodies {
      BodyBytesRemove(bodies, k);
      assert bodies[k := body] - {k} == bodies - {k};
    } else {
      assert bodies[k := body] - {k} == bodies;
    }
  }

  function WithBody(bodies: Bodies, ref: TableRef, base: Text, body: Body): Bodies {
    if KeepsBody(base) then bodies[(ref, base) := body] else bodies
  }

  /** The bodies a walk over these entries read, where it filed them. */
  function BodiesRead(entries: seq<Entry>): Bodies {
    if entries == [] then map[]
    else
      var bodies, e := BodiesRead(entries[..|entries| - 1]), entries[|entries| - 1];
      if Filable(e) && |e.segments| >= 3 then WithBody(bodies, RefOf(e), Base(e), e.body) else bodies
  }

  /** The table a file's path names: the two directories above it. */
  function RefOf(e: Entry): TableRef
    requires |e.segments| >= 3
  {
    TableRef(e.segments[|e.segments| - 3], e.segments[|e.segments| - 2])
  }

  /** The walk holds no more than it was charged for: not more tables, names and bodies,
      and not more bytes of names and bodies. */
  ghost predicate HoldsWithin(tables: map<TableRef, Facts>, bodies: Bodies, k: Kept) {
    && (forall x :: x in bodies <==> x in BodiesKept(tables))
    && |tables| + |BodiesKept(tables)| <= k.entries
    && |NamesKept(tables)| + |BodiesKept(tables)| <= k.entries
    && NameBytes(NamesKept(tables)) + BodyBytes(bodies) <= k.bytes
  }

  lemma CardinalityAdd<T>(s: set<T>, x: T)
    ensures |s + {x}| == |s| + if x in s then 0 else 1
  {
    if x in s { assert s + {x} == s; }
  }

  lemma TablesAdd(tables: map<TableRef, Facts>, ref: TableRef, f: Facts)
    ensures |tables[ref := f]| <= |tables| + 1
  {
    CardinalityAdd(tables.Keys, ref);
    assert tables[ref := f].Keys == tables.Keys + {ref};
  }

  lemma KeptSetsAdd(names: set<(TableRef, Text)>, k: (TableRef, Text))
    ensures |names + {k}| <= |names| + 1
    ensures NameBytes(names + {k}) <= NameBytes(names) + |k.1|
  {
    CardinalityAdd(names, k);
    if k in names {
      assert names + {k} == names;
    } else {
      NameBytesAdd(names, k);
    }
  }

  lemma BodiesAdd(tables: map<TableRef, Facts>, more: map<TableRef, Facts>, k: (TableRef, Text))
    requires NamesKept(more) == NamesKept(tables) + {k}
    ensures BodiesKept(more) == if KeepsBody(k.1) then BodiesKept(tables) + {k} else BodiesKept(tables)
  {
    forall x
      ensures x in BodiesKept(more) <==> x in BodiesKept(tables) || (x == k && KeepsBody(k.1))
    {
      assert x in NamesKept(more) <==> x in NamesKept(tables) || x == k;
    }
  }

  /** One more name kept, with or without its body, is paid for by its charge. */
  lemma OneMoreWithin(tables: map<TableRef, Facts>, more: map<TableRef, Facts>, bodies: Bodies, charged: Kept,
                      ref: TableRef, base: Text, body: Body)
    requires HoldsWithin(tables, bodies, charged)
    requires |more| <= |tables| + 1 && NamesKept(more) == NamesKept(tables) + {(ref, base)}
    ensures HoldsWithin(more, WithBody(bodies, ref, base, body), FileCharge(charged, base, body))
  {
    var k := (ref, base);
    KeptSetsAdd(NamesKept(tables), k);
    KeptSetsAdd(BodiesKept(tables), k);
    BodiesAdd(tables, more, k);
    BodyBytesAdd(bodies, k, body);
  }

  lemma FileKeepsWithin(tables: map<TableRef, Facts>, bodies: Bodies, charged: Kept, ref: TableRef, base: Text, body: Body)
    requires HoldsWithin(tables, bodies, charged)
    ensures HoldsWithin(Filed(tables, ref, base, body), WithBody(bodies, ref, base, body), FileCharge(charged, base, body))
  {
    FiledNames(tables, ref, base, body);
    TablesAdd(tables, ref, Record(FactsAt(tables, ref), base, body));
    OneMoreWithin(tables, Filed(tables, ref, base, body), bodies, charged, ref, base, body);
  }

  lemma FileIsCharged(k: Kept, base: Text, body: Body)
    ensures FileCharge(k, base, body) == Plus(k, FileCharge(Kept(0, 0), base, body))
  {
  }

  /** What going on from a file means: it was at an accepted depth and paid for. */
  lemma FileThatContinued(st: WalkState, e: Entry)
    requires Filable(e) && WalkEntry(st, e).Continue?
    ensures 3 <= |e.segments| <= 4
    ensures var now := WalkEntry(st, e).state;
            && now.tables == Filed(st.tables, RefOf(e), Base(e), e.body)
            && now.kept == FileCharge(st.kept, Base(e), e.body) && Affordable(now.kept)
  {
  }

  lemma OtherThatContinued(st: WalkState, e: Entry)
    requires !Filable(e) && WalkEntry(st, e).Continue?
    ensures WalkEntry(st, e).state.tables == st.tables && WalkEntry(st, e).state.kept == st.kept
  {
  }

  lemma EntryStaysAffordable(st: WalkState, bodies: Bodies, e: Entry)
    requires Affordable(st.kept) && HoldsWithin(st.tables, bodies, st.kept)
    requires WalkEntry(st, e).Continue?
    ensures var now := WalkEntry(st, e).state;
            && now.kept == Plus(st.kept, ChargeOf(e)) && Affordable(now.kept)
            && HoldsWithin(now.tables,
                           if Filable(e) && |e.segments| >= 3 then WithBody(bodies, RefOf(e), Base(e), e.body) else bodies,
                           now.kept)
  {
    if Filable(e) {
      FileThatContinued(st, e);
      FileIsCharged(st.kept, Base(e), e.body);
      FileKeepsWithin(st.tables, bodies, st.kept, RefOf(e), Base(e), e.body);
    } else {
      OtherThatContinued(st, e);
    }
  }

  ghost predicate Paid(entries: seq<Entry>, st: WalkState) {
    st.kept == TotalCharge(entries) && Affordable(st.kept) && HoldsWithin(st.tables, BodiesRead(entries), st.kept)
  }

  lemma ChargedNext(entries: seq<Entry>, e: Entry)
    ensures TotalCharge(entries + [e]) == Plus(TotalCharge(entries), ChargeOf(e))
    ensures BodiesRead(entries + [e]) ==
            if Filable(e) && |e.segments| >= 3 then WithBody(BodiesRead(entries), RefOf(e), Base(e), e.body) else BodiesRead(entries)
  {
    assert (entries + [e])[..|entries|] == entries;
    TotalChargeSnoc(entries + [e]);
  }

  lemma PaidNext(entries: seq<Entry>, st: WalkState, e: Entry)
    requires Paid(entries, st) && WalkEntry(st, e).Continue?
    ensures Paid(entries + [e], WalkEntry(st, e).state)
  {
    ChargedNext(entries, e);
    EntryStaysAffordable(st, BodiesRead(entries), e);
  }

  lemma NothingHeld()
    ensures Paid([], WALK_START)
  {
    assert NamesKept(map[]) == {} && BodiesKept(map[]) == {};
  }

  /** Whatever the archive: in every state the walk goes on from it has charged every
      file it met, is within both limits, and holds no more tables, names and bodies, and
      no more bytes of them, than it charged. Every prefix of an archive is an archive, so
      this is every state of the walk. */
  lemma {:induction false} WalkStaysAffordable(entries: seq<Entry>)
    ensures WalkAll(entries).Continue? ==> Paid(entries, WalkAll(entries).state)
  {
    if entries == [] {
      NothingHeld();
    } else {
      var init, e := entries[..|entries| - 1], entries[|entries| - 1];
      WalkStaysAffordable(init);
      if WalkAll(init).Continue? && WalkAll(entries).Continue? {
        PaidNext(init, WalkAll(init).state, e);
        assert entries == init + [e];
      }
    }
  }

  lemma {:induction false} TotalConcat(a: seq<Kept>, b: seq<Kept>)
    ensures Total(a + b) == Plus(Total(a), Total(b))
  {
    if b == [] {
      assert a + b == a;
    } else {
      assert (a + b)[..|a + b| - 1] == a + b[..|b| - 1];
      TotalConcat(a, b[..|b| - 1]);
    }
  }

  lemma TotalSnoc(charges: seq<Kept>, last: Kept)
    ensures Total(charges + [last]) == Plus(Total(charges), last)
  {
    assert (charges + [last])[..|charges|] == charges;
  }

  lemma TotalOfMapSnoc<T>(charge: T -> Kept, items: seq<T>, last: T)
    ensures Total(Map(charge, items + [last])) == Plus(Total(Map(charge, items)), charge(last))
  {
    TotalSnoc(Map(charge, items), charge(last));
    assert Map(charge, items + [last]) == Map(charge, items) + [charge(last)];
  }

  function TotalOf<T>(charge: T -> Kept, items: seq<T>): Kept {
    if items == [] then Kept(0, 0) else Plus(TotalOf(charge, items[..|items| - 1]), charge(items[|items| - 1]))
  }

  lemma {:induction false} TotalOfIsTotal<T>(charge: T -> Kept, items: seq<T>)
    ensures TotalOf(charge, items) == Total(Map(charge, items))
  {
    if items != [] {
      var init, last := items[..|items| - 1], items[|items| - 1];
      TotalOfIsTotal(charge, init);
      TotalOfMapSnoc(charge, init, last);
      assert items == init + [last];
    }
  }

  lemma TotalAround(before: seq<Kept>, one: Kept, after: seq<Kept>)
    ensures Total(before + [one] + after) == Plus(Total(before + after), one)
  {
    calc {
      Total(before + [one] + after);
      { TotalConcat(before + [one], after); }
      Plus(Total(before + [one]), Total(after));
      { TotalSnoc(before, one); }
      Plus(Plus(Total(before), one), Total(after));
      Plus(Plus(Total(before), Total(after)), one);
      { TotalConcat(before, after); }
      Plus(Total(before + after), one);
    }
  }

  lemma SplitsAt(charges: seq<Kept>, k: nat)
    requires k < |charges|
    ensures charges == charges[..k] + [charges[k]] + charges[k + 1..]
  {
  }

  lemma TotalOfParts(charges: seq<Kept>, before: seq<Kept>, one: Kept, after: seq<Kept>)
    requires charges == before + [one] + after
    ensures Total(charges) == Plus(Total(before + after), one)
  {
    TotalAround(before, one, after);
  }

  lemma TotalDropAt(charges: seq<Kept>, k: nat)
    requires k < |charges|
    ensures Total(charges) == Plus(Total(charges[..k] + charges[k + 1..]), charges[k])
  {
    SplitsAt(charges, k);
    TotalOfParts(charges, charges[..k], charges[k], charges[k + 1..]);
  }

  lemma {:induction false} TotalOrderFree(charges: seq<Kept>, shuffled: seq<Kept>)
    requires multiset(charges) == multiset(shuffled)
    ensures Total(charges) == Total(shuffled)
    decreases |charges|
  {
    if charges == [] {
      assert |multiset(shuffled)| == 0;
    } else {
      var k := MatchFirst(charges, shuffled);
      TotalDropAt(charges, 0);
      TotalDropAt(shuffled, k);
      assert charges[..0] + charges[1..] == charges[1..];
      TotalOrderFree(charges[1..], shuffled[..k] + shuffled[k + 1..]);
    }
  }

  /** What an archive costs does not depend on the order of its entries. */
  lemma ChargeOrderFree(entries: seq<Entry>, shuffled: seq<Entry>)
    requires multiset(entries) == multiset(shuffled)
    ensures TotalCharge(entries) == TotalCharge(shuffled)
  {
    MapOrderFree(ChargeOf, entries, shuffled);
    TotalOrderFree(Map(ChargeOf, entries), Map(ChargeOf, shuffled));
  }
}
