/** adapters/etcd/retention.go: listLeases, which reads the ids off what `etcdctl lease
    list` prints, and holdLeases, which starts the keeper. */
module EtcdListing {
  import opened Bytes
  import opened Ordering
  import opened Paths
  import opened Wrappers

  const LEASE_LIST_HEADER := Ascii("found ")

  /** The ids one line contributes: its own, unless it is blank or the header. */
  function LineIds(line: Text): seq<Text> {
    var id := TrimSpace(line);
    if id == [] || HasPrefix(id, LEASE_LIST_HEADER) then [] else [id]
  }

  function LeaseIds(lines: seq<Text>): seq<Text> {
    if lines == [] then [] else LeaseIds(lines[..|lines| - 1]) + LineIds(lines[|lines| - 1])
  }

  /** listLeases, of a listing that succeeded. */
  method ListLeases(stdout: Text) returns (ids: seq<Text>)
    ensures ids == LeaseIds(Split(NEWLINE, stdout))
  {
    var lines := Split(NEWLINE, stdout);
    ids := [];
    for i := 0 to |lines|
      invariant ids == LeaseIds(lines[..i])
    {
      assert lines[..i + 1][..i] == lines[..i];
      var id := TrimSpace(lines[i]);
      if id == [] || HasPrefix(id, LEASE_LIST_HEADER) {
        continue;
      }
      ids := ids + [id];
    }
    assert lines[..|lines|] == lines;
  }

  predicate IsLeaseId(id: Text) {
    && id != [] && NEWLINE !in id && !HasPrefix(id, LEASE_LIST_HEADER)
    && SpaceAt(id) == 0 && SpaceBefore(id) == 0
  }

  function HeaderFor(n: nat): Text {
    LEASE_LIST_HEADER + Decimal(n) + Ascii(" leases")
  }

  function Lines(header: Text, ids: seq<Text>): seq<Text> {
    [header] + ids + [[]]
  }

  /** What the client prints: the header with its count, then one id a line. */
  function Listing(ids: seq<Text>): Text {
    Join(NEWLINE, Lines(HeaderFor(|ids|), ids))
  }

  lemma IdOfLine(id: Text)
    requires IsLeaseId(id)
    ensures LineIds(id) == [id]
  {
    assert TrimLeft(id) == id && TrimRight(id) == id;
  }

  lemma IdsSnoc(lines: seq<Text>, last: Text)
    ensures LeaseIds(lines + [last]) == LeaseIds(lines) + LineIds(last)
  {
    assert (lines + [last])[..|lines|] == lines;
  }

  /** Padding around an id is none of it. */
  lemma PaddedId(before: Text, id: Text, after: Text)
    requires IsLeaseId(id) && Padding(before) && Padding(after)
    ensures LineIds(before + (id + after)) == [id]
  {
    TrimPadding(before, id, after);
  }

  lemma OneIdMore(init: seq<Text>, id: Text)
    requires IsLeaseId(id) && LeaseIds(init) == init
    ensures LeaseIds(init + [id]) == init + [id]
  {
    IdOfLine(id);
    IdsSnoc(init, id);
  }

  lemma {:induction false} IdsOfIds(ids: seq<Text>)
    requires forall id :: id in ids ==> IsLeaseId(id)
    ensures LeaseIds(ids) == ids
  {
    if ids != [] {
      var init, last := ids[..|ids| - 1], ids[|ids| - 1];
      assert ids == init + [last];
      IdsOfIds(init);
      OneIdMore(init, last);
    }
  }

  lemma IdsConcatNext(a: seq<Text>, init: seq<Text>, last: Text)
    requires LeaseIds(a + init) == LeaseIds(a) + LeaseIds(init)
    ensures LeaseIds(a + (init + [last])) == LeaseIds(a) + LeaseIds(init + [last])
  {
    ConcatAssociates(a, init, [last]);
    IdsSnoc(a + init, last);
    IdsSnoc(init, last);
    ConcatAssociates(LeaseIds(a), LeaseIds(init), LineIds(last));
  }

  lemma {:induction false} IdsConcat(a: seq<Text>, b: seq<Text>)
    ensures LeaseIds(a + b) == LeaseIds(a) + LeaseIds(b)
  {
    if b == [] {
      assert a + b == a;
    } else {
      var init, last := b[..|b| - 1], b[|b| - 1];
      assert b == init + [last];
      IdsConcat(a, init);
      IdsConcatNext(a, init, last);
    }
  }

  lemma OneLine(line: Text)
    ensures LeaseIds([line]) == LineIds(line)
  {
    assert LeaseIds([line]) == LeaseIds([line][..0]) + LineIds(line);
  }

  /** Text between two characters of ASCII that are no white space is left whole. */
  lemma NothingTrimmed(t: Text)
    requires t != [] && t[0] < 128 && !IsSpace(t[0]) && t[|t| - 1] < 128 && !IsSpace(t[|t| - 1])
    ensures TrimSpace(t) == t
  {
    assert SpaceAt(t) == 0;
    assert SpaceBefore(t) == 0;
  }

  lemma HeaderLine(n: nat)
    ensures NEWLINE !in HeaderFor(n) && LineIds(HeaderFor(n)) == []
  {
    var line := HeaderFor(n);
    assert line[0] == 102 && line[|line| - 1] == 115;
    NothingTrimmed(line);
    assert line[..6] == LEASE_LIST_HEADER;
  }

  lemma IdsOfLines(header: Text, ids: seq<Text>)
    requires LineIds(header) == [] && LeaseIds(ids) == ids
    ensures LeaseIds(Lines(header, ids)) == ids
  {
    OneLine(header);
    OneLine([]);
    IdsConcat([header], ids);
    IdsConcat([header] + ids, [[]]);
  }

  lemma LinesSplit(header: Text, ids: seq<Text>)
    requires NEWLINE !in header && forall id :: id in ids ==> NEWLINE !in id
    ensures Split(NEWLINE, Join(NEWLINE, Lines(header, ids))) == Lines(header, ids)
  {
    assert forall line :: line in Lines(header, ids) ==> line == header || line in ids || line == [];
    SplitJoin(NEWLINE, Lines(header, ids));
  }

  /** Every listing is read back to exactly the ids it lists, in order. */
  lemma ListingRoundTrip(ids: seq<Text>)
    requires forall id :: id in ids ==> IsLeaseId(id)
    ensures LeaseIds(Split(NEWLINE, Listing(ids))) == ids
  {
    HeaderLine(|ids|);
    IdsOfIds(ids);
    IdsOfLines(HeaderFor(|ids|), ids);
    LinesSplit(HeaderFor(|ids|), ids);
  }

  // holdLeases.

  /** What one command in the sandbox came to. */
  datatype Reply = NotRun | Ran(exitCode: int, stdout: Text, seconds: real)

  datatype Command = LeaseList | KeepAliveOnce(id: Text) | StartKeeper

  datatype Failure = CallFailed | Refused

  datatype Held = Held(leases: nat, seconds: real)

  /** The sandbox answers each of the three commands in one way. */
  datatype Sandbox = Sandbox(listing: Reply, proof: Reply, start: Reply)

  predicate Succeeded(r: Reply) {
    r.Ran? && r.exitCode == 0
  }

  function FailureOf(r: Reply): Failure {
    if r.NotRun? then CallFailed else Refused
  }

  function ListedIds(sandbox: Sandbox): seq<Text>
    requires Succeeded(sandbox.listing)
  {
    LeaseIds(Split(NEWLINE, sandbox.listing.stdout))
  }

  /** holdLeases: the keeper is started only behind an accepted keep-alive for a lease
      that was listed, and a held answer means it runs, unless there is no lease. */
  method HoldLeases(sandbox: Sandbox) returns (r: Result<Held, Failure>, sent: seq<Command>)
    ensures sent != [] && sent[0] == LeaseList
    ensures StartKeeper in sent <==>
            Succeeded(sandbox.listing) && ListedIds(sandbox) != [] && Succeeded(sandbox.proof)
    ensures StartKeeper in sent ==> sent == [LeaseList, KeepAliveOnce(ListedIds(sandbox)[0]), StartKeeper]
    ensures r.Ok? <==>
            && Succeeded(sandbox.listing)
            && (ListedIds(sandbox) != [] ==> Succeeded(sandbox.proof) && Succeeded(sandbox.start))
    ensures r.Ok? ==> r.value.leases == |ListedIds(sandbox)| && (r.value.leases > 0 <==> StartKeeper in sent)
    ensures r.Ok? && r.value.leases > 0 ==>
              r.value.seconds == sandbox.listing.seconds + sandbox.proof.seconds + sandbox.start.seconds
    ensures r.Ok? && r.value.leases == 0 ==> r.value.seconds == sandbox.listing.seconds
    ensures Succeeded(sandbox.listing) && ListedIds(sandbox) != [] && !Succeeded(sandbox.proof) ==>
              sent == [LeaseList, KeepAliveOnce(ListedIds(sandbox)[0])]
    ensures !Succeeded(sandbox.listing) || ListedIds(sandbox) == [] ==> sent == [LeaseList]
    ensures r.Err? ==>
              var failed := if |sent| == 1 then sandbox.listing else if |sent| == 2 then sandbox.proof else sandbox.start;
              r.error == if failed.NotRun? then CallFailed else Refused
  {
    sent := [LeaseList];
    if !Succeeded(sandbox.listing) {
      return Err(FailureOf(sandbox.listing)), sent;
    }
    var ids := ListLeases(sandbox.listing.stdout);
    if |ids| == 0 {
      return Ok(Held(0, sandbox.listing.seconds)), sent;
    }
    sent := sent + [KeepAliveOnce(ids[0])];
    if !Succeeded(sandbox.proof) {
      return Err(FailureOf(sandbox.proof)), sent;
    }
    sent := sent + [StartKeeper];
    if !Succeeded(sandbox.start) {
      return Err(FailureOf(sandbox.start)), sent;
    }
    return Ok(Held(|ids|, sandbox.listing.seconds + sandbox.proof.seconds + sandbox.start.seconds)), sent;
  }
}
