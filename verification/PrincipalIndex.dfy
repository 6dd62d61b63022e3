/** The server's index of sessions by principal (server.cpp). Pointers to
    sessions are serial numbers. */
module PrincipalIndex {

  type Index = map<string, set<nat>>

  function Members(index: Index, p: string): set<nat> {
    if p in index then index[p] else {}
  }

  function IndexAdd(index: Index, p: string, serial: nat): Index {
    index[p := Members(index, p) + {serial}]
  }

  /** The last one out removes the entry. */
  function IndexRemove(index: Index, p: string, serial: nat): Index {
    if p !in index then index
    else if index[p] - {serial} == {} then index - {p}
    else index[p := index[p] - {serial}]
  }

  class DanPrincipalIndex {
    var entries: Index

    constructor ()
      ensures entries == map[]
    {
      entries := map[];
    }

    method AddSession(p: string, serial: nat)
      modifies this
      ensures entries == IndexAdd(old(entries), p, serial)
    {
      if p !in entries {
        entries := entries[p := {}];
      }
      entries := entries[p := entries[p] + {serial}];
    }

    method RemoveSession(p: string, serial: nat)
      modifies this
      ensures entries == IndexRemove(old(entries), p, serial)
    {
      if p in entries {
        entries := entries[p := entries[p] - {serial}];
        if entries[p] == {} {
          entries := entries - {p};
        }
      }
    }
  }
}
