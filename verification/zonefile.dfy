/**
 * The zone-file library's view of a zone: an ordered list of entries, each a
 * domain, a type and a list of values. The library's parser and printer are
 * outside this model and are passed in as functions.
 */
module Zonefile {
  import opened Wrappers

  /** One entry of a zone file; its raw layout is kept by the library and not modelled. */
  datatype Entry = Entry(domain: string, rtype: string, values: seq<string>)

  /** The library's Load, Save and ParseEntry. */
  datatype Library = Library(
    load: string -> Option<seq<Entry>>,
    save: seq<Entry> -> string,
    parseEntry: string -> Option<Entry>)

  /** A loaded zone; SetValue and AddEntry change it in place. */
  class Zone {
    var entries: seq<Entry>

    constructor (entries: seq<Entry>)
      ensures this.entries == entries
    {
      this.entries := entries;
    }

    /** Replaces value `j` of entry `i`; fails, changing nothing, when the entry has no value `j`. */
    method SetValue(i: nat, j: nat, v: string) returns (ok: bool)
      requires i < |entries|
      modifies this
      ensures ok <==> j < |old(entries)[i].values|
      ensures ok ==> entries == old(entries)[i := old(entries)[i].(values := old(entries)[i].values[j := v])]
      ensures !ok ==> entries == old(entries)
    {
      ok := j < |entries[i].values|;
      if ok {
        entries := entries[i := entries[i].(values := entries[i].values[j := v])];
      }
    }

    /** Adds `e` after every existing entry. */
    method AddEntry(e: Entry)
      modifies this
      ensures entries == old(entries) + [e]
    {
      entries := entries + [e];
    }
  }
}
