/**
 compute-fdhs: the inner join that fills the FDH table, the counts taken before
 it, and the run that creates, fills, checks and on failure drops the table.
 Tables are multisets of rows; sequences below list their rows in any order.
 */
module Fdhs {
  import opened Common

  /** nearAddr is None for NULL; the all-zero addresses count as missing. */
  datatype Fie = Fie(pdId: uint32, captureTime: int, nearAddr: Option<int>, farAddr: Option<int>)

  datatype Pd = Pd(pdId: uint32, agentId: string, ipVersion: uint8, destination: int, nearTtl: uint8)

  datatype Fdh = Fdh(agentId: string, ipVersion: uint8, nearAddr: int, destination: int,
                     captureTime: int, pdId: uint32, nearTtl: uint8, farAddr: Option<int>)

  /** Addresses are their 128-bit values: `::` and `::ffff:0.0.0.0`. */
  predicate IsZero(addr: int) {
    addr == 0 || addr == 0xffff_0000_0000
  }

  predicate NearPresent(f: Fie) {
    f.nearAddr.Some? && !IsZero(f.nearAddr.value)
  }

  function RowOf(f: Fie, p: Pd): Fdh
    requires NearPresent(f)
  {
    Fdh(p.agentId, p.ipVersion, f.nearAddr.value, p.destination, f.captureTime, f.pdId, p.nearTtl,
        if f.farAddr.Some? && IsZero(f.farAddr.value) then None else f.farAddr)
  }

  // ----- The statements -----

  /** The PDs an FIE joins with. */
  function Partners(f: Fie, pds: seq<Pd>): seq<Pd> {
    if pds == [] then []
    else (if pds[0].pdId == f.pdId then [pds[0]] else []) + Partners(f, pds[1..])
  }

  function JoinOne(f: Fie, partners: seq<Pd>): (r: seq<Fdh>)
    requires NearPresent(f)
    ensures |r| == |partners| && forall i :: 0 <= i < |r| ==> r[i] == RowOf(f, partners[i])
  {
    if partners == [] then [] else [RowOf(f, partners[0])] + JoinOne(f, partners[1..])
  }

  /** FDHInsertSQL: INNER JOIN on pd_id, WHERE the near address is present. */
  function InnerJoin(fies: seq<Fie>, pds: seq<Pd>): seq<Fdh> {
    if fies == [] then []
    else (if NearPresent(fies[0]) then JoinOne(fies[0], Partners(fies[0], pds)) else []) + InnerJoin(fies[1..], pds)
  }

  datatype FdhSource = FdhSource(nearFies: nat, missingPd: nat)

  /** CountFDHSource: LEFT ANY JOIN keeps every FIE once, found or not. */
  function CountSource(fies: seq<Fie>, pds: seq<Pd>): FdhSource {
    if fies == [] then FdhSource(0, 0)
    else
      var rest := CountSource(fies[1..], pds);
      if !NearPresent(fies[0]) then rest
      else FdhSource(rest.nearFies + 1, rest.missingPd + (if HasPd(fies[0], pds) then 0 else 1))
  }

  predicate HasPd(f: Fie, pds: seq<Pd>) {
    exists p :: p in pds && p.pdId == f.pdId
  }

  // ----- The rows of the join -----

  /** r is the row of FIE f and PD p: the FIE has a near address other than :: and
      ::ffff:0.0.0.0, and the far address is NULL when it is missing or one of
      these. */
  predicate IsRowOf(r: Fdh, f: Fie, p: Pd) {
    && f.pdId == p.pdId && r.pdId == f.pdId
    && f.nearAddr == Some(r.nearAddr) && r.nearAddr != 0 && r.nearAddr != 0xffff_0000_0000
    && r.captureTime == f.captureTime
    && r.agentId == p.agentId && r.ipVersion == p.ipVersion && r.nearTtl == p.nearTtl
    && r.destination == p.destination
    && r.farAddr == if f.farAddr == Some(0) || f.farAddr == Some(0xffff_0000_0000) then None else f.farAddr
  }

  /** The rows of the join are exactly those of an FIE and a PD with its ID. */
  lemma {:induction false} JoinExactly(fies: seq<Fie>, pds: seq<Pd>, r: Fdh)
    ensures r in InnerJoin(fies, pds) <==> exists f, p :: f in fies && p in pds && IsRowOf(r, f, p)
  {
    if fies != [] {
      JoinExactly(fies[1..], pds, r);
      if NearPresent(fies[0]) {
        JoinOneExactly(fies[0], pds, r);
      }
      assert forall f :: f in fies <==> f == fies[0] || f in fies[1..];
    }
  }

  lemma {:induction false} JoinOneExactly(f: Fie, pds: seq<Pd>, r: Fdh)
    requires NearPresent(f)
    ensures r in JoinOne(f, Partners(f, pds)) <==> exists p :: p in pds && IsRowOf(r, f, p)
  {
    if pds != [] {
      JoinOneExactly(f, pds[1..], r);
      assert forall p :: p in pds <==> p == pds[0] || p in pds[1..];
      if pds[0].pdId == f.pdId {
        var rest := Partners(f, pds[1..]);
        assert Partners(f, pds) == [pds[0]] + rest;
        assert ([pds[0]] + rest)[1..] == rest;
        assert r == RowOf(f, pds[0]) <==> IsRowOf(r, f, pds[0]);
      } else {
        assert Partners(f, pds) == Partners(f, pds[1..]);
      }
    }
  }

  /** A near reply is a near address that is not all zero. */
  lemma NearPresentExactly(f: Fie)
    ensures NearPresent(f) <==> f.nearAddr != None && f.nearAddr != Some(0) && f.nearAddr != Some(0xffff_0000_0000)
  {
  }

  // ----- The row check -----

  function Ids(pds: seq<Pd>): (r: seq<uint32>)
    ensures |r| == |pds| && forall i :: 0 <= i < |pds| ==> r[i] == pds[i].pdId
  {
    Map((p: Pd) => p.pdId, pds)
  }

  lemma {:induction false} PartnersCount(f: Fie, pds: seq<Pd>)
    ensures |Partners(f, pds)| == Copies(Ids(pds), f.pdId)
    ensures forall p :: p in Partners(f, pds) ==> p in pds && p.pdId == f.pdId
    ensures Copies(Ids(pds), f.pdId) >= 1 <==> HasPd(f, pds)
  {
    if pds != [] {
      PartnersCount(f, pds[1..]);
      assert Ids(pds)[1..] == Ids(pds[1..]);
      assert forall p :: p in pds <==> p == pds[0] || p in pds[1..];
    }
  }

  /** No ID that an FIE with a near reply refers to is duplicated. */
  ghost predicate NoDuplicatePd(fies: seq<Fie>, pds: seq<Pd>) {
    forall f :: f in fies && NearPresent(f) ==> Copies(Ids(pds), f.pdId) <= 1
  }

  /** The join has at least a row per FIE expected, and exactly that many if and
      only if no PD it uses is duplicated. */
  lemma {:induction false} JoinSize(fies: seq<Fie>, pds: seq<Pd>)
    ensures var s := CountSource(fies, pds);
      && s.missingPd <= s.nearFies
      && |InnerJoin(fies, pds)| >= s.nearFies - s.missingPd
      && (|InnerJoin(fies, pds)| == s.nearFies - s.missingPd <==> NoDuplicatePd(fies, pds))
  {
    if fies != [] {
      JoinSize(fies[1..], pds);
      PartnersCount(fies[0], pds);
      assert forall f :: f in fies <==> f == fies[0] || f in fies[1..];
    }
  }

  /** The FIEs that have a near reply and a PD. */
  function Joinable(fies: seq<Fie>, pds: seq<Pd>): seq<Fie> {
    if fies == [] then []
    else (if NearPresent(fies[0]) && HasPd(fies[0], pds) then [fies[0]] else []) + Joinable(fies[1..], pds)
  }

  /** table holds one row for each of fies, made with its PD. */
  ghost predicate OneRowEach(fies: seq<Fie>, pds: seq<Pd>, rows: seq<Fdh>) {
    && |rows| == |fies|
    && forall i :: 0 <= i < |fies| ==>
         && NearPresent(fies[i])
         && exists p :: p in pds && IsRowOf(rows[i], fies[i], p)
  }

  /** When the check passes, the join is one row per FIE with a near reply and a
      PD, in the order of the FIEs. */
  lemma {:induction false} JoinIsOneRowEach(fies: seq<Fie>, pds: seq<Pd>)
    requires NoDuplicatePd(fies, pds)
    ensures OneRowEach(Joinable(fies, pds), pds, InnerJoin(fies, pds))
  {
    if fies != [] {
      var f, rest := fies[0], fies[1..];
      assert forall g :: g in rest ==> g in fies;
      JoinIsOneRowEach(rest, pds);
      var rows := InnerJoin(rest, pds);
      if !NearPresent(f) {
        assert InnerJoin(fies, pds) == rows && Joinable(fies, pds) == Joinable(rest, pds);
      } else {
        assert f in fies;
        JoinOneRow(f, pds);
        assert InnerJoin(fies, pds) == JoinOne(f, Partners(f, pds)) + rows;
        if HasPd(f, pds) {
          var p :| p in pds && p.pdId == f.pdId && JoinOne(f, Partners(f, pds)) == [RowOf(f, p)];
          OneMoreRow(f, p, Joinable(rest, pds), pds, rows);
        } else {
          assert [] + rows == rows && Joinable(fies, pds) == Joinable(rest, pds);
        }
      }
    }
  }

  lemma JoinOneRow(f: Fie, pds: seq<Pd>)
    requires NearPresent(f) && Copies(Ids(pds), f.pdId) <= 1
    ensures HasPd(f, pds) ==>
      exists p :: p in pds && p.pdId == f.pdId && JoinOne(f, Partners(f, pds)) == [RowOf(f, p)]
    ensures !HasPd(f, pds) ==> JoinOne(f, Partners(f, pds)) == []
  {
    PartnersCount(f, pds);
    if HasPd(f, pds) {
      var p := Partners(f, pds)[0];
      assert p in Partners(f, pds);
      assert JoinOne(f, Partners(f, pds)) == [RowOf(f, p)];
    }
  }

  lemma OneMoreRow(f: Fie, p: Pd, fies: seq<Fie>, pds: seq<Pd>, rows: seq<Fdh>)
    requires NearPresent(f) && p in pds && p.pdId == f.pdId && OneRowEach(fies, pds, rows)
    ensures OneRowEach([f] + fies, pds, [RowOf(f, p)] + rows)
  {
  }

  // ----- The run -----

  datatype Failure = TableExists | InputMissing | CountFailed | NothingToCompute | CreateFailed
    | InsertFailed | SummarizeFailed | WrongRowCount(found: nat, wanted: nat)

  /** Which server operations succeed. kept: how many rows a failed insert
      leaves behind. */
  datatype Server = Server(inputsOk: bool, counts: bool, creates: bool, inserts: bool, kept: nat,
                           summarizes: bool, drops: bool)

  class Database {
    /** The FDH table's rows, None when it does not exist. */
    var fdhs: Option<seq<Fdh>>

    constructor (fdhs: Option<seq<Fdh>>)
      ensures this.fdhs == fdhs
    {
      this.fdhs := fdhs;
    }

    /** openTable with prepareFDHs: nothing is created unless the inputs exist
        and some FIE can be joined. */
    method Prepare(fies: seq<Fie>, pds: seq<Pd>, server: Server) returns (r: Result<FdhSource, Failure>)
      modifies this
      ensures r.Ok? ==> old(fdhs).None? && fdhs == Some([])
      ensures r.Ok? ==> r.value == CountSource(fies, pds) && r.value.nearFies != r.value.missingPd
      ensures r.Err? ==> fdhs == old(fdhs)
      ensures var s := CountSource(fies, pds);
        r.Ok? <==> old(fdhs).None? && server.inputsOk && server.counts && s.nearFies != s.missingPd && server.creates
      ensures r == Err(TableExists) <==> old(fdhs).Some?
      ensures r == Err(InputMissing) <==> old(fdhs).None? && !server.inputsOk
      ensures r == Err(CountFailed) <==> old(fdhs).None? && server.inputsOk && !server.counts
      ensures r == Err(CreateFailed) ==> !server.creates && Joinable(fies, pds) != []
      ensures r == Err(NothingToCompute) ==> Joinable(fies, pds) == []
    {
      if fdhs.Some? {
        return Err(TableExists);
      }
      if !server.inputsOk {
        return Err(InputMissing);
      }
      if !server.counts {
        return Err(CountFailed);
      }
      var source := CountSource(fies, pds);
      JoinableCount(fies, pds);
      if source.nearFies == source.missingPd {
        return Err(NothingToCompute);
      }
      if !server.creates {
        return Err(CreateFailed);
      }
      fdhs := Some([]);
      return Ok(source);
    }

    /** dropOnFailure. */
    method DropOnFailure(failed: bool, dropOnFail: bool, server: Server)
      modifies this
      ensures fdhs == if failed && dropOnFail && server.drops then None else old(fdhs)
    {
      if failed && dropOnFail && server.drops {
        fdhs := None;
      }
    }

    method FillAndCheck(source: FdhSource, fies: seq<Fie>, pds: seq<Pd>, server: Server)
      returns (failure: Option<Failure>)
      requires fdhs == Some([]) && source == CountSource(fies, pds)
      modifies this
      ensures fdhs.Some?
      ensures failure.None? ==> fdhs == Some(InnerJoin(fies, pds)) && NoDuplicatePd(fies, pds)
      ensures server.inserts && server.summarizes ==> (failure.None? <==> NoDuplicatePd(fies, pds))
      ensures failure == Some(InsertFailed) <==> !server.inserts
      ensures failure == Some(SummarizeFailed) <==> server.inserts && !server.summarizes
      ensures failure.Some? && failure.value.WrongRowCount? ==>
        failure.value.found == |InnerJoin(fies, pds)| > failure.value.wanted == |Joinable(fies, pds)|
    {
      JoinSize(fies, pds);
      JoinableCount(fies, pds);
      var rows := InnerJoin(fies, pds);
      if !server.inserts {
        fdhs := Some(rows[..Min(server.kept, |rows|)]);
        return Some(InsertFailed);
      }
      fdhs := Some(rows);
      if !server.summarizes {
        return Some(SummarizeFailed);
      }
      if |rows| != source.nearFies - source.missingPd {
        return Some(WrongRowCount(|rows|, source.nearFies - source.missingPd));
      }
      return None;
    }

    /** compute-fdhs succeeds only with one row per FIE with a near reply and a
        PD. A run that fails leaves an existing table alone and, unless told to
        keep it or unable to drop it, no table of its own. */
    method ComputeFdhs(fies: seq<Fie>, pds: seq<Pd>, dropOnFail: bool, server: Server)
      returns (failure: Option<Failure>)
      modifies this
      ensures failure.None? ==> old(fdhs).None? && fdhs.Some? && OneRowEach(Joinable(fies, pds), pds, fdhs.value)
      ensures failure.Some? && old(fdhs).Some? ==> fdhs == old(fdhs)
      ensures failure.Some? && dropOnFail && server.drops ==> fdhs == old(fdhs)
      ensures server == Server(true, true, true, true, server.kept, true, server.drops) && old(fdhs).None? ==>
        (failure.None? <==> NoDuplicatePd(fies, pds) && Joinable(fies, pds) != [])
    {
      JoinSize(fies, pds);
      JoinableCount(fies, pds);
      var prepared := Prepare(fies, pds, server);
      if prepared.Err? {
        return Some(prepared.error);
      }
      failure := FillAndCheck(prepared.value, fies, pds, server);
      DropOnFailure(failure.Some?, dropOnFail, server);
      if failure.None? {
        JoinIsOneRowEach(fies, pds);
      }
    }
  }

  lemma {:induction false} JoinableCount(fies: seq<Fie>, pds: seq<Pd>)
    ensures var s := CountSource(fies, pds);
      s.missingPd <= s.nearFies && |Joinable(fies, pds)| == s.nearFies - s.missingPd
  {
    if fies != [] {
      JoinableCount(fies[1..], pds);
    }
  }
}
