/**
  The SSI command registry (`uwsgi_ssi_commands`): a list of named handlers,
  appended at the tail, searched from the head.
*/
module CommandRegistry {
  import opened Bytes

  /** The function an entry points to: the echo command, or a handler registered by other code. */
  datatype Handler = EchoHandler | External(id: nat)

  /** One `struct uwsgi_ssi_cmd` (its `next` link is the order of the list). */
  datatype Entry = Entry(name: seq<byte>, handler: Handler)

  /** "echo" */
  const ECHO: seq<byte> := [101, 99, 104, 111]

  /** The position of the first entry named `name`, if any. */
  function Find(entries: seq<Entry>, name: seq<byte>): (r: Option<nat>)
    ensures r.Some? ==> r.value < |entries| && entries[r.value].name == name
    ensures r.Some? ==> forall j | 0 <= j < r.value :: entries[j].name != name
    ensures r.None? <==> forall e <- entries :: e.name != name
    decreases |entries|
  {
    if entries == [] then None
    else if entries[0].name == name then Some(0)
    else
      match Find(entries[1..], name)
      case None => None
      case Some(k) => Some(k + 1)
  }

  /** The entry `uwsgi_ssi_get_cmd` returns for `name` (NULL is None). */
  function Lookup(entries: seq<Entry>, name: seq<byte>): (r: Option<Entry>)
    ensures r.Some? <==> exists e <- entries :: e.name == name
    ensures r.Some? ==> r.value in entries && r.value.name == name
  {
    match Find(entries, name)
    case None => None
    case Some(k) => Some(entries[k])
  }

  /** The list after registering `name`: unchanged if the name is present, otherwise one entry longer at the tail. */
  function Registered(entries: seq<Entry>, name: seq<byte>, h: Handler): (r: seq<Entry>)
    ensures entries <= r && |r| <= |entries| + 1
    ensures |r| > |entries| <==> Find(entries, name).None?
    ensures |r| > |entries| ==> r[|entries|] == Entry(name, h)
    ensures Find(r, name).Some?
  {
    if Find(entries, name).Some? then entries else entries + [Entry(name, h)]
  }

  /** No two entries share a name. */
  predicate Unique(entries: seq<Entry>) {
    forall i, j | 0 <= i < j < |entries| :: entries[i].name != entries[j].name
  }

  /** The list as `uwsgi_ssi_init` leaves it: only `echo`. */
  function Initial(): seq<Entry> {
    [Entry(ECHO, EchoHandler)]
  }

  /** The global list head and the entries reachable from it. */
  class Registry {
    var entries: seq<Entry>

    /** The list before any registration (head NULL). */
    constructor()
      ensures entries == []
    {
      entries := [];
    }

    /**
      `uwsgi_register_ssi_command`: returns the entry already holding `name`,
      or appends a new one at the tail and returns it.
    */
    method Register(name: seq<byte>, handler: Handler) returns (e: Entry)
      modifies this
      ensures entries == Registered(old(entries), name, handler)
      ensures Lookup(entries, name) == Some(e)
    {
      var i := 0;
      while i < |entries|
        invariant 0 <= i <= |entries|
        invariant forall j | 0 <= j < i :: entries[j].name != name
      {
        if entries[i].name == name {
          assert Find(entries, name) == Some(i);
          return entries[i];
        }
        i := i + 1;
      }
      e := Entry(name, handler);
      FindAppend(entries, e, name);
      entries := entries + [e];
    }

    /** `uwsgi_ssi_get_cmd`: the first entry whose name has the query's length and bytes. */
    method GetCmd(name: seq<byte>) returns (r: Option<Entry>)
      ensures r == Lookup(entries, name)
    {
      var i := 0;
      while i < |entries|
        invariant 0 <= i <= |entries|
        invariant forall j | 0 <= j < i :: entries[j].name != name
      {
        if entries[i].name == name {
          assert Find(entries, name) == Some(i);
          return Some(entries[i]);
        }
        i := i + 1;
      }
      return None;
    }
  }

  /** `uwsgi_ssi_init` on a fresh list. */
  method Init() returns (reg: Registry)
    ensures fresh(reg) && reg.entries == Initial()
  {
    reg := new Registry();
    var _ := reg.Register(ECHO, EchoHandler);
  }

  // ---------------------------------------------------------------------
  // Properties of registration and lookup

  /** Appending an entry does not change where existing names are found. */
  lemma FindAppend(entries: seq<Entry>, e: Entry, name: seq<byte>)
    ensures Find(entries + [e], name)
         == if Find(entries, name).Some? then Find(entries, name)
            else if e.name == name then Some(|entries|) else None
  {
    var all := entries + [e];
    match Find(entries, name)
    case Some(k) =>
      assert all[k] == entries[k];
      assert forall j | 0 <= j < k :: all[j] == entries[j];
      FindFirst(all, name, k);
    case None =>
      if e.name == name {
        assert forall j | 0 <= j < |entries| :: all[j] == entries[j];
        FindFirst(all, name, |entries|);
      } else {
        assert forall x <- all :: x in entries || x == e;
      }
  }

  /** An entry named `name` with no earlier one is what Find returns. */
  lemma FindFirst(entries: seq<Entry>, name: seq<byte>, k: nat)
    requires k < |entries| && entries[k].name == name
    requires forall j | 0 <= j < k :: entries[j].name != name
    ensures Find(entries, name) == Some(k)
  {
    assert entries[k] in entries;
  }

  /** The first registration of a name wins: registering it again changes nothing. */
  lemma FirstRegistrationWins(entries: seq<Entry>, name: seq<byte>, h1: Handler, h2: Handler)
    ensures Registered(Registered(entries, name, h1), name, h2) == Registered(entries, name, h1)
    ensures Lookup(Registered(Registered(entries, name, h1), name, h2), name) == Lookup(Registered(entries, name, h1), name)
  {
    FindAppend(entries, Entry(name, h1), name);
  }

  /** After registering `name`, looking it up yields the earlier entry if there was one, else the new one. */
  lemma LookupRegistered(entries: seq<Entry>, name: seq<byte>, h: Handler)
    ensures Lookup(Registered(entries, name, h), name)
         == if Lookup(entries, name).Some? then Lookup(entries, name) else Some(Entry(name, h))
  {
    FindAppend(entries, Entry(name, h), name);
  }

  /** Registering one name does not change what any other name looks up to. */
  lemma LookupOther(entries: seq<Entry>, name: seq<byte>, h: Handler, other: seq<byte>)
    requires other != name
    ensures Lookup(Registered(entries, name, h), other) == Lookup(entries, other)
  {
    FindAppend(entries, Entry(name, h), other);
  }

  /** Registration keeps names unique. */
  lemma RegisteredUnique(entries: seq<Entry>, name: seq<byte>, h: Handler)
    requires Unique(entries)
    ensures Unique(Registered(entries, name, h))
  {
    if Find(entries, name).None? {
      var all := entries + [Entry(name, h)];
      forall i, j | 0 <= i < j < |all| ensures all[i].name != all[j].name {
        if j == |entries| {
          assert all[i] in entries;
        }
      }
    }
  }

  /** Only `echo` is registered at start: every other name is unknown. */
  lemma InitialLookup(name: seq<byte>)
    ensures Lookup(Initial(), name) == if name == ECHO then Some(Entry(ECHO, EchoHandler)) else None
  {
    if name == ECHO {
      assert Find(Initial(), name) == Some(0);
    }
  }
}
