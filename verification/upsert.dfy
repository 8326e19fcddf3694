/**
 * What one scan of UpdateRecordInFile does to the entries of a zone: every
 * entry with the target domain and type gets the new value 0, every SOA entry
 * gets its serial (value 2) advanced by one, a zone without an SOA is refused,
 * and one entry is appended when none matched.
 */
module Upserter {
  import opened Wrappers
  import opened Strconv
  import opened Zonefile

  datatype Error =
    | LoadFailed        // the library could not parse the file
    | SetValueFailed    // a matching entry has no value 0
    | MalformedSoa      // an SOA entry without exactly 7 values
    | InvalidSerial     // an SOA serial that Atoi refuses
    | MissingSoa        // no SOA entry at all
    | ParseEntryFailed  // the library could not parse the line to append

  /** Exact, byte-for-byte comparison of type and domain. */
  predicate Matches(e: Entry, name: string, rtype: string)
  {
    e.rtype == rtype && e.domain == name
  }

  predicate IsSoa(e: Entry) { e.rtype == "SOA" }

  predicate HasSoa(es: seq<Entry>)
  {
    exists i :: 0 <= i < |es| && IsSoa(es[i])
  }

  predicate HasMatch(es: seq<Entry>, name: string, rtype: string)
  {
    exists i :: 0 <= i < |es| && Matches(es[i], name, rtype)
  }

  lemma HasSoaSnoc(es: seq<Entry>, e: Entry)
    ensures HasSoa(es + [e]) <==> HasSoa(es) || IsSoa(e)
  {
    if IsSoa(e) {
      assert (es + [e])[|es|] == e;
    }
    if HasSoa(es) {
      var k :| 0 <= k < |es| && IsSoa(es[k]);
      assert (es + [e])[k] == es[k];
    }
  }

  lemma HasMatchSnoc(es: seq<Entry>, e: Entry, name: string, rtype: string)
    ensures HasMatch(es + [e], name, rtype) <==> HasMatch(es, name, rtype) || Matches(e, name, rtype)
  {
    if Matches(e, name, rtype) {
      assert (es + [e])[|es|] == e;
    }
    if HasMatch(es, name, rtype) {
      var k :| 0 <= k < |es| && Matches(es[k], name, rtype);
      assert (es + [e])[k] == es[k];
    }
  }

  /** One more entry of a prefix: it has an SOA when the shorter prefix has one or the entry is one. */
  lemma HasSoaPrefix(es: seq<Entry>, i: nat)
    requires i < |es|
    ensures HasSoa(es[..i + 1]) <==> HasSoa(es[..i]) || IsSoa(es[i])
  {
    assert es[..i + 1] == es[..i] + [es[i]];
    HasSoaSnoc(es[..i], es[i]);
  }

  lemma HasMatchPrefix(es: seq<Entry>, i: nat, name: string, rtype: string)
    requires i < |es|
    ensures HasMatch(es[..i + 1], name, rtype) <==> HasMatch(es[..i], name, rtype) || Matches(es[i], name, rtype)
  {
    assert es[..i + 1] == es[..i] + [es[i]];
    HasMatchSnoc(es[..i], es[i], name, rtype);
  }

  /** An SOA entry whose serial the scan can advance. */
  predicate GoodSoa(e: Entry)
  {
    IsSoa(e) && |e.values| == 7 && Atoi(e.values[2]).Some?
  }

  function Serial(e: Entry): int
    requires GoodSoa(e)
  {
    Atoi(e.values[2]).value
  }

  /** The error the scan stops with on reaching `e`, if any. */
  function EntryError(e: Entry, name: string, rtype: string): Option<Error>
  {
    if Matches(e, name, rtype) && |e.values| == 0 then Some(SetValueFailed)
    else if !IsSoa(e) then None
    else if |e.values| != 7 then Some(MalformedSoa)
    else if Atoi(e.values[2]).None? then Some(InvalidSerial)
    else None
  }

  /** The error of the first entry that has one. */
  function FirstError(es: seq<Entry>, name: string, rtype: string): (r: Option<Error>)
    ensures r.None? <==> forall i :: 0 <= i < |es| ==> EntryError(es[i], name, rtype).None?
  {
    if es == [] then None
    else if EntryError(es[0], name, rtype).Some? then EntryError(es[0], name, rtype)
    else FirstError(es[1..], name, rtype)
  }

  /** When every entry before `i` is fine, the scan stops with the error of entry `i`. */
  lemma {:induction false} FirstErrorAt(es: seq<Entry>, name: string, rtype: string, i: nat)
    requires i < |es| && EntryError(es[i], name, rtype).Some?
    requires forall k :: 0 <= k < i ==> EntryError(es[k], name, rtype).None?
    ensures FirstError(es, name, rtype) == EntryError(es[i], name, rtype)
  {
    if i > 0 {
      FirstErrorAt(es[1..], name, rtype, i - 1);
    }
  }

  /** The entry as the scan leaves it: value 0 replaced if it matches, serial advanced if it is an SOA. */
  function Rewrite(e: Entry, name: string, rtype: string, value: string): Entry
  {
    var e1 := if Matches(e, name, rtype) && |e.values| > 0 then e.(values := e.values[0 := value]) else e;
    if GoodSoa(e1) then e1.(values := e1.values[2 := Itoa(Int64Succ(Serial(e1)))]) else e1
  }

  /** The text handed to the library's ParseEntry for a new record. */
  function NewEntryLine(name: string, rtype: string, value: string): string
  {
    if rtype == "PTR" then name + " IN " + rtype + " " + value else name + " " + rtype + " " + value
  }

  /** The zone after a successful scan, and whether a new entry was appended. */
  datatype Upserted = Upserted(entries: seq<Entry>, appended: bool)

  function Upsert(es: seq<Entry>, name: string, rtype: string, value: string,
                  parseEntry: string -> Option<Entry>): Result<Upserted, Error>
  {
    match FirstError(es, name, rtype)
    case Some(err) => Failure(err)
    case None =>
      if !HasSoa(es) then Failure(MissingSoa)
      else
        var updated := seq(|es|, i requires 0 <= i < |es| => Rewrite(es[i], name, rtype, value));
        if HasMatch(es, name, rtype) then Success(Upserted(updated, false))
        else
          match parseEntry(NewEntryLine(name, rtype, value))
          case None => Failure(ParseEntryFailed)
          case Some(e) => Success(Upserted(updated + [e], true))
  }

  /** The library reads a new record's line back as that record. */
  predicate ParsesAs(parseEntry: string -> Option<Entry>, name: string, rtype: string, value: string)
  {
    var p := parseEntry(NewEntryLine(name, rtype, value));
    p.Some? ==> Matches(p.value, name, rtype) && |p.value.values| >= 1 && p.value.values[0] == value
  }

  // ---------------------------------------------------------------- lemmas

  /**
   * The scan fails exactly when some entry is bad, when there is no SOA, or
   * when nothing matched and the new line does not parse; each error names
   * its cause.
   */
  lemma UpsertFailure(es: seq<Entry>, name: string, rtype: string, value: string,
                      parseEntry: string -> Option<Entry>)
    ensures Upsert(es, name, rtype, value, parseEntry).Failure? <==>
      || (exists i :: 0 <= i < |es| && EntryError(es[i], name, rtype).Some?)
      || !HasSoa(es)
      || (!HasMatch(es, name, rtype) && parseEntry(NewEntryLine(name, rtype, value)).None?)
    ensures Upsert(es, name, rtype, value, parseEntry) == Failure(MissingSoa) <==>
      (forall i :: 0 <= i < |es| ==> EntryError(es[i], name, rtype).None?) && !HasSoa(es)
    ensures Upsert(es, name, rtype, value, parseEntry) == Failure(MalformedSoa) ==>
      exists i :: 0 <= i < |es| && IsSoa(es[i]) && |es[i].values| != 7
    ensures Upsert(es, name, rtype, value, parseEntry) == Failure(InvalidSerial) ==>
      exists i :: 0 <= i < |es| && IsSoa(es[i]) && |es[i].values| == 7 && Atoi(es[i].values[2]).None?
    ensures Upsert(es, name, rtype, value, parseEntry) == Failure(SetValueFailed) ==>
      exists i :: 0 <= i < |es| && Matches(es[i], name, rtype) && |es[i].values| == 0
    ensures Upsert(es, name, rtype, value, parseEntry) == Failure(ParseEntryFailed) ==>
      !HasMatch(es, name, rtype) && parseEntry(NewEntryLine(name, rtype, value)).None?
    ensures Upsert(es, name, rtype, value, parseEntry) != Failure(LoadFailed)
  {
    FirstErrorKinds(es, name, rtype);
    var first := FirstError(es, name, rtype);
    if first.Some? {
      var i :| 0 <= i < |es| && EntryError(es[i], name, rtype).Some?;
      var j := FirstBad(es, name, rtype, i);
      FirstErrorAt(es, name, rtype, j);
    }
  }

  /** The scan itself stops only with an error of a single entry. */
  lemma {:induction false} FirstErrorKinds(es: seq<Entry>, name: string, rtype: string)
    ensures FirstError(es, name, rtype) in {None, Some(SetValueFailed), Some(MalformedSoa), Some(InvalidSerial)}
  {
    if es != [] && EntryError(es[0], name, rtype).None? {
      FirstErrorKinds(es[1..], name, rtype);
    }
  }

  /** The first bad entry, searching up to `i`, which is bad. */
  lemma FirstBad(es: seq<Entry>, name: string, rtype: string, i: nat) returns (j: nat)
    requires i < |es| && EntryError(es[i], name, rtype).Some?
    ensures j <= i && EntryError(es[j], name, rtype).Some?
    ensures forall k :: 0 <= k < j ==> EntryError(es[k], name, rtype).None?
  {
    j := 0;
    while EntryError(es[j], name, rtype).None?
      invariant j <= i
      invariant forall k :: 0 <= k < j ==> EntryError(es[k], name, rtype).None?
      decreases i - j
    {
      j := j + 1;
    }
  }

  /** A successful scan accepted every entry and rewrote each in place; anything it appended comes after them. */
  lemma UpsertEntries(es: seq<Entry>, name: string, rtype: string, value: string,
                      parseEntry: string -> Option<Entry>, u: Upserted)
    requires Upsert(es, name, rtype, value, parseEntry) == Success(u)
    ensures |u.entries| >= |es|
    ensures forall i :: 0 <= i < |es| ==>
      EntryError(es[i], name, rtype).None? && u.entries[i] == Rewrite(es[i], name, rtype, value)
  {
  }

  /** What the scan changes in one entry it accepts. */
  lemma RewriteChanges(e: Entry, name: string, rtype: string, value: string)
    requires EntryError(e, name, rtype).None?
    ensures var r := Rewrite(e, name, rtype, value);
      && r.domain == e.domain && r.rtype == e.rtype && |r.values| == |e.values|
      && (Matches(e, name, rtype) ==> r.values[0] == value)
      && (!Matches(e, name, rtype) && !IsSoa(e) ==> r == e)
      && (forall j :: 0 <= j < |e.values| ==>
            (|| (j == 0 && Matches(e, name, rtype))
             || (j == 2 && IsSoa(e))
             || r.values[j] == e.values[j]))
      && (IsSoa(e) ==>
            && GoodSoa(e) && GoodSoa(r)
            && r.values[2] == Itoa(Int64Succ(Serial(e)))
            && Serial(r) == Int64Succ(Serial(e)))
  {
    var r := Rewrite(e, name, rtype, value);
    if IsSoa(e) {
      ItoaRoundTrip(Int64Succ(Serial(e)));
    }
  }

  /**
   * After a successful scan, entries keep their domain, type and number of
   * values and their order; every matching entry holds the new value 0; an
   * entry that neither matches nor is an SOA is unchanged; no other value
   * changes.
   */
  lemma UpsertRewrites(es: seq<Entry>, name: string, rtype: string, value: string,
                       parseEntry: string -> Option<Entry>, u: Upserted)
    requires Upsert(es, name, rtype, value, parseEntry) == Success(u)
    ensures |u.entries| >= |es|
    ensures forall i :: 0 <= i < |es| ==>
      u.entries[i].domain == es[i].domain && u.entries[i].rtype == es[i].rtype
      && |u.entries[i].values| == |es[i].values|
    ensures forall i :: 0 <= i < |es| && Matches(es[i], name, rtype) ==> u.entries[i].values[0] == value
    ensures forall i :: 0 <= i < |es| && !Matches(es[i], name, rtype) && !IsSoa(es[i]) ==> u.entries[i] == es[i]
    ensures forall i, j :: 0 <= i < |es| && 0 <= j < |es[i].values| ==>
      (|| (j == 0 && Matches(es[i], name, rtype))
       || (j == 2 && IsSoa(es[i]))
       || u.entries[i].values[j] == es[i].values[j])
  {
    UpsertEntries(es, name, rtype, value, parseEntry, u);
    forall i | 0 <= i < |es| {
      RewriteChanges(es[i], name, rtype, value);
    }
  }

  /** Every SOA entry had a readable serial, and now holds that serial plus one, as Go's 64-bit int adds. */
  lemma UpsertBumpsEverySoa(es: seq<Entry>, name: string, rtype: string, value: string,
                            parseEntry: string -> Option<Entry>, u: Upserted)
    requires Upsert(es, name, rtype, value, parseEntry) == Success(u)
    ensures HasSoa(es)
    ensures forall i :: 0 <= i < |es| && IsSoa(es[i]) ==>
      && GoodSoa(es[i]) && GoodSoa(u.entries[i])
      && u.entries[i].values[2] == Itoa(Int64Succ(Serial(es[i])))
      && Serial(u.entries[i]) == Int64Succ(Serial(es[i]))
  {
    UpsertEntries(es, name, rtype, value, parseEntry, u);
    forall i | 0 <= i < |es| && IsSoa(es[i]) {
      RewriteChanges(es[i], name, rtype, value);
    }
  }

  /** One entry is appended, at the end, exactly when no entry matched; otherwise the count is unchanged. */
  lemma UpsertAppendsOnMiss(es: seq<Entry>, name: string, rtype: string, value: string,
                            parseEntry: string -> Option<Entry>, u: Upserted)
    requires Upsert(es, name, rtype, value, parseEntry) == Success(u)
    ensures u.appended <==> !HasMatch(es, name, rtype)
    ensures |u.entries| == if u.appended then |es| + 1 else |es|
    ensures u.appended ==> parseEntry(NewEntryLine(name, rtype, value)) == Some(u.entries[|es|])
  {
  }

  /** Afterwards every entry with the target domain and type carries the new value, and there is at least one. */
  lemma UpsertEstablishesRecord(es: seq<Entry>, name: string, rtype: string, value: string,
                                parseEntry: string -> Option<Entry>, u: Upserted)
    requires ParsesAs(parseEntry, name, rtype, value)
    requires Upsert(es, name, rtype, value, parseEntry) == Success(u)
    ensures HasMatch(u.entries, name, rtype)
    ensures forall i :: 0 <= i < |u.entries| && Matches(u.entries[i], name, rtype) ==>
      |u.entries[i].values| >= 1 && u.entries[i].values[0] == value
  {
    UpsertRewrites(es, name, rtype, value, parseEntry, u);
    if !u.appended {
      var i :| 0 <= i < |es| && Matches(es[i], name, rtype);
      assert Matches(u.entries[i], name, rtype);
    } else {
      assert Matches(u.entries[|es|], name, rtype);
    }
    forall i | 0 <= i < |u.entries| && Matches(u.entries[i], name, rtype)
      ensures |u.entries[i].values| >= 1 && u.entries[i].values[0] == value
    {
      if i < |es| {
        assert Matches(es[i], name, rtype);
        assert EntryError(es[i], name, rtype).None?;
      }
    }
  }

  /**
   * The entries a successful scan leaves pass a second scan for the same
   * record: no entry is bad, an SOA is still there and the record now
   * matches.
   */
  lemma RescanAccepts(es: seq<Entry>, name: string, rtype: string, value: string,
                      parseEntry: string -> Option<Entry>, u1: Upserted)
    requires rtype != "SOA"
    requires ParsesAs(parseEntry, name, rtype, value)
    requires Upsert(es, name, rtype, value, parseEntry) == Success(u1)
    ensures forall i :: 0 <= i < |u1.entries| ==> EntryError(u1.entries[i], name, rtype).None?
    ensures HasSoa(u1.entries) && HasMatch(u1.entries, name, rtype)
  {
    var es1 := u1.entries;
    UpsertEntries(es, name, rtype, value, parseEntry, u1);
    UpsertAppendsOnMiss(es, name, rtype, value, parseEntry, u1);
    UpsertEstablishesRecord(es, name, rtype, value, parseEntry, u1);
    forall i | 0 <= i < |es1|
      ensures EntryError(es1[i], name, rtype).None?
    {
      if i < |es| {
        RewriteChanges(es[i], name, rtype, value);
      } else {
        assert Matches(es1[i], name, rtype);
      }
    }
    var k :| 0 <= k < |es| && IsSoa(es[k]);
    RewriteChanges(es[k], name, rtype, value);
    assert IsSoa(es1[k]);
  }

  /**
   * Upserting the same record twice: the second scan also succeeds, appends
   * nothing, changes no entry other than the SOA entries, and advances every
   * serial once more. This holds for every type other than SOA; see
   * SoaTwiceFails for why SOA is excluded.
   */
  lemma UpsertTwice(es: seq<Entry>, name: string, rtype: string, value: string,
                    parseEntry: string -> Option<Entry>, u1: Upserted)
    requires rtype != "SOA"
    requires ParsesAs(parseEntry, name, rtype, value)
    requires Upsert(es, name, rtype, value, parseEntry) == Success(u1)
    ensures Upsert(u1.entries, name, rtype, value, parseEntry).Success?
    ensures var u2 := Upsert(u1.entries, name, rtype, value, parseEntry).value;
      && !u2.appended
      && |u2.entries| == |u1.entries|
      && (forall i :: 0 <= i < |u1.entries| && !IsSoa(u1.entries[i]) ==> u2.entries[i] == u1.entries[i])
      && (forall i :: 0 <= i < |u1.entries| && IsSoa(u1.entries[i]) ==>
            GoodSoa(u1.entries[i]) && GoodSoa(u2.entries[i])
            && Serial(u2.entries[i]) == Int64Succ(Serial(u1.entries[i])))
  {
    var es1 := u1.entries;
    RescanAccepts(es, name, rtype, value, parseEntry, u1);
    UpsertEstablishesRecord(es, name, rtype, value, parseEntry, u1);
    var u2 := Upsert(es1, name, rtype, value, parseEntry).value;
    UpsertEntries(es1, name, rtype, value, parseEntry, u2);
    UpsertAppendsOnMiss(es1, name, rtype, value, parseEntry, u2);
    RewriteAllAgain(es1, name, rtype, value, u2.entries);
  }

  /**
   * With type SOA the second update can fail: the first appends an SOA entry
   * with a single value, which the next scan refuses as malformed.
   */
  lemma SoaTwiceFails()
    ensures var soa := Entry("@", "SOA", ["a", "b", "1", "c", "d", "e", "f"]);
      var parse := (line: string) => Some(Entry("x", "SOA", ["v"]));
      && ParsesAs(parse, "x", "SOA", "v")
      && Upsert([soa], "x", "SOA", "v", parse).Success?
      && Upsert(Upsert([soa], "x", "SOA", "v", parse).value.entries, "x", "SOA", "v", parse) == Failure(MalformedSoa)
  {
    var soa := Entry("@", "SOA", ["a", "b", "1", "c", "d", "e", "f"]);
    var parse := (line: string) => Some(Entry("x", "SOA", ["v"]));
    assert Itoa(1) == "1";
    ItoaRoundTrip(1);
    assert [soa][1..] == [];
    assert FirstError([soa], "x", "SOA") == None;
    assert HasSoa([soa]) by { assert IsSoa([soa][0]); }
    assert !HasMatch([soa], "x", "SOA");
    var u1 := Upsert([soa], "x", "SOA", "v", parse).value;
    UpsertEntries([soa], "x", "SOA", "v", parse, u1);
    UpsertAppendsOnMiss([soa], "x", "SOA", "v", parse, u1);
    RewriteChanges(soa, "x", "SOA", "v");
    assert u1.entries[1] == Entry("x", "SOA", ["v"]);
    assert EntryError(u1.entries[0], "x", "SOA").None?;
    FirstErrorAt(u1.entries, "x", "SOA", 1);
  }

  /** RewriteAgain on every entry of a zone that already holds the new record. */
  lemma RewriteAllAgain(es: seq<Entry>, name: string, rtype: string, value: string, rewritten: seq<Entry>)
    requires |rewritten| >= |es|
    requires forall i :: 0 <= i < |es| ==>
      && EntryError(es[i], name, rtype).None?
      && (Matches(es[i], name, rtype) ==> |es[i].values| >= 1 && es[i].values[0] == value)
      && rewritten[i] == Rewrite(es[i], name, rtype, value)
    ensures forall i :: 0 <= i < |es| && !IsSoa(es[i]) ==> rewritten[i] == es[i]
    ensures forall i :: 0 <= i < |es| && IsSoa(es[i]) ==>
      GoodSoa(es[i]) && GoodSoa(rewritten[i]) && Serial(rewritten[i]) == Int64Succ(Serial(es[i]))
  {
    forall i | 0 <= i < |es| {
      RewriteAgain(es[i], name, rtype, value);
    }
  }

  /** An entry that already holds the new value is left as it is by the scan, unless it is an SOA. */
  lemma RewriteAgain(e: Entry, name: string, rtype: string, value: string)
    requires EntryError(e, name, rtype).None?
    requires Matches(e, name, rtype) ==> |e.values| >= 1 && e.values[0] == value
    ensures !IsSoa(e) ==> Rewrite(e, name, rtype, value) == e
    ensures IsSoa(e) ==>
      GoodSoa(e) && GoodSoa(Rewrite(e, name, rtype, value))
      && Serial(Rewrite(e, name, rtype, value)) == Int64Succ(Serial(e))
  {
    RewriteChanges(e, name, rtype, value);
    if Matches(e, name, rtype) && !IsSoa(e) {
      assert e.values[0 := value] == e.values;
    }
  }

  // ---------------------------------------------------------------- serials

  /** A request to the scan: domain, type and new value. */
  datatype Request = Request(name: string, rtype: string, value: string)

  /** Successive scans, each on the entries the previous one left, stopping at the first failure. */
  function UpsertAll(es: seq<Entry>, reqs: seq<Request>, parseEntry: string -> Option<Entry>): Result<seq<Entry>, Error>
    decreases |reqs|
  {
    if reqs == [] then Success(es)
    else
      match Upsert(es, reqs[0].name, reqs[0].rtype, reqs[0].value, parseEntry)
      case Failure(err) => Failure(err)
      case Success(u) => UpsertAll(u.entries, reqs[1..], parseEntry)
  }

  lemma SoaAdvancesOnce(es: seq<Entry>, r: Request, parseEntry: string -> Option<Entry>, k: nat)
    requires Upsert(es, r.name, r.rtype, r.value, parseEntry).Success?
    requires k < |es| && GoodSoa(es[k])
    ensures var u := Upsert(es, r.name, r.rtype, r.value, parseEntry).value;
      k < |u.entries| && GoodSoa(u.entries[k]) && Serial(u.entries[k]) == Int64Succ(Serial(es[k]))
  {
    var u := Upsert(es, r.name, r.rtype, r.value, parseEntry).value;
    UpsertBumpsEverySoa(es, r.name, r.rtype, r.value, parseEntry, u);
  }

  /** After N successful scans each SOA serial has advanced N times (wrapping at 64 bits). */
  lemma {:induction false} SerialAdvancesByN(es: seq<Entry>, reqs: seq<Request>,
                                             parseEntry: string -> Option<Entry>, k: nat)
    requires k < |es| && GoodSoa(es[k])
    requires UpsertAll(es, reqs, parseEntry).Success?
    ensures var final := UpsertAll(es, reqs, parseEntry).value;
      k < |final| && GoodSoa(final[k]) && Serial(final[k]) == AdvanceBy(Serial(es[k]), |reqs|)
    decreases |reqs|
  {
    if reqs == [] {
      assert UpsertAll(es, reqs, parseEntry) == Success(es);
    } else {
      var r := reqs[0];
      UpsertAllStep(es, reqs, parseEntry);
      var u := Upsert(es, r.name, r.rtype, r.value, parseEntry).value;
      SoaAdvancesOnce(es, r, parseEntry, k);
      SerialAdvancesByN(u.entries, reqs[1..], parseEntry, k);
      AdvanceByStep(Serial(es[k]), |reqs|);
    }
  }

  /** A successful run of scans starts with a successful scan, and the rest runs on what it left. */
  lemma UpsertAllStep(es: seq<Entry>, reqs: seq<Request>, parseEntry: string -> Option<Entry>)
    requires reqs != [] && UpsertAll(es, reqs, parseEntry).Success?
    ensures var r := reqs[0];
      && Upsert(es, r.name, r.rtype, r.value, parseEntry).Success?
      && UpsertAll(es, reqs, parseEntry)
         == UpsertAll(Upsert(es, r.name, r.rtype, r.value, parseEntry).value.entries, reqs[1..], parseEntry)
  {
  }

  lemma AdvanceByStep(s: int, n: nat)
    requires InInt64(s) && n >= 1
    ensures AdvanceBy(s, n) == AdvanceBy(Int64Succ(s), n - 1)
  {
  }
}
