/**
 * Set: bind a name to an IP address by updating the forward zone (A or AAAA)
 * and then the reverse zone (PTR), and finally asking the name server to
 * reload.
 */
module Updater {
  import opened Wrappers
  import opened Hex
  import opened ReverseLookup
  import opened Zonefile
  import opened Upserter
  import opened ZoneStore

  datatype SetError =
    | InvalidAddress                          // the address does not parse
    | ForwardFailed(rtype: string, cause: Error)  // the forward zone was left as it was
    | ReverseFailed(cause: Error)             // the forward zone is already written
    | ReloadFailed                            // both zones are written

  /** IPv6 addresses get AAAA records, all others A records. */
  function ForwardType(a: Address): string
  {
    if a.V6? then "AAAA" else "A"
  }

  /** The PTR value: the name made fully qualified under the origin. */
  function PtrTarget(name: string, origin: string): string
  {
    name + "." + origin + "."
  }

  /**
   * `parsed` is the outcome of parsing `ip`, and `reloadOk` the outcome of
   * the reload command. When both zones are the same file, the reverse
   * update reads what the forward update wrote.
   */
  method Set(fZone: DiskFile, rZone: DiskFile, lib: Library, origin: string,
             name: string, ip: string, parsed: Option<Address>, reloadOk: bool)
    returns (err: Option<SetError>)
    modifies fZone, rZone
    ensures parsed.None? ==>
      err == Some(InvalidAddress)
      && fZone.contents == old(fZone.contents) && rZone.contents == old(rZone.contents)
    ensures parsed.Some? ==>
      var a := parsed.value;
      var fwd := UpdatedContents(lib, old(fZone.contents), name, ForwardType(a), ip);
      var revBefore := if rZone == fZone && fwd.Success? then fwd.value else old(rZone.contents);
      var rev := UpdatedContents(lib, revBefore, ReverseName(a), "PTR", PtrTarget(name, origin));
      if fwd.Failure? then
        && err == Some(ForwardFailed(ForwardType(a), fwd.error))
        && fZone.contents == old(fZone.contents) && rZone.contents == old(rZone.contents)
      else if rev.Failure? then
        && err == Some(ReverseFailed(rev.error))
        && fZone.contents == fwd.value && rZone.contents == revBefore
      else
        && err == (if reloadOk then None else Some(ReloadFailed))
        && rZone.contents == rev.value
        && (rZone != fZone ==> fZone.contents == fwd.value)
  {
    if parsed.None? {
      return Some(InvalidAddress);
    }
    var nip := parsed.value;
    var rname := name + "." + origin + ".";
    var e: Option<Error>;
    if nip.V6? {
      e := UpdateRecordInFile(fZone, lib, name, "AAAA", ip);
      if e.Some? {
        return Some(ForwardFailed("AAAA", e.value));
      }
      var ipHex := HexEncode(nip.v6);
      var rHex := ReverseNibbles(ipHex);
      var xformIP := rHex + "ip6.arpa.";
      e := UpdateRecordInFile(rZone, lib, xformIP, "PTR", rname);
      if e.Some? {
        return Some(ReverseFailed(e.value));
      }
    } else {
      e := UpdateRecordInFile(fZone, lib, name, "A", ip);
      if e.Some? {
        return Some(ForwardFailed("A", e.value));
      }
      var xformIP := ReverseNameV4(nip.v4);
      e := UpdateRecordInFile(rZone, lib, xformIP, "PTR", rname);
      if e.Some? {
        return Some(ReverseFailed(e.value));
      }
    }

    if !reloadOk {
      return Some(ReloadFailed);
    }
    return None;
  }

  /**
   * Forward and reverse records agree: when both upserts succeed, the forward
   * zone has the name with the address and the reverse zone has a PTR record,
   * named after the address, that points back at the name.
   */
  lemma RecordsAgree(a: Address, name: string, ip: string, origin: string,
                     fes: seq<Entry>, res: seq<Entry>, parseEntry: string -> Option<Entry>,
                     fu: Upserted, ru: Upserted)
    requires ParsesAs(parseEntry, name, ForwardType(a), ip)
    requires ParsesAs(parseEntry, ReverseName(a), "PTR", PtrTarget(name, origin))
    requires Upsert(fes, name, ForwardType(a), ip, parseEntry) == Success(fu)
    requires Upsert(res, ReverseName(a), "PTR", PtrTarget(name, origin), parseEntry) == Success(ru)
    ensures exists i :: 0 <= i < |fu.entries| &&
              (&& fu.entries[i].domain == name && fu.entries[i].rtype == ForwardType(a)
               && |fu.entries[i].values| >= 1 && fu.entries[i].values[0] == ip)
    ensures exists j :: 0 <= j < |ru.entries| &&
              (&& ru.entries[j].rtype == "PTR" && ParseReverseName(ru.entries[j].domain) == Some(a)
               && |ru.entries[j].values| >= 1 && ru.entries[j].values[0] == PtrTarget(name, origin))
  {
    UpsertEstablishesRecord(fes, name, ForwardType(a), ip, parseEntry, fu);
    UpsertEstablishesRecord(res, ReverseName(a), "PTR", PtrTarget(name, origin), parseEntry, ru);
    ReverseNameRoundTrip(a);
    var j :| 0 <= j < |ru.entries| && Matches(ru.entries[j], ReverseName(a), "PTR");
    assert ParseReverseName(ru.entries[j].domain) == Some(a);
  }
}
