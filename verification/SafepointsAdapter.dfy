/** The breakpoint operations of debug/safepoints.h and debug/debug-adapter.c, carried out on the code bytes. */
module SafepointsAdapter {
  import opened Options
  import opened Safepoints

  class Adapter {
    const table: Table
    var code: Code
    var active: seq<Node>
    var enabled: bool
    ghost var cleared: set<nat>

    ghost function Now(): State
      reads this
    {
      State.State(code, active, enabled, cleared)
    }

    ghost predicate Valid()
      reads this
    {
      Inv(table, Now())
    }

    constructor (table: Table, code: Code)
      requires Fresh(table, State.State(code, [], false, {}))
      ensures Valid() && this.table == table && Now() == State.State(code, [], false, {})
    {
      this.table := table;
      this.code := code;
      active, enabled, cleared := [], false, {};
      new;
      RunKeepsInv(table, State.State(code, [], false, {}), []);
    }

    /** AddressList_write, which is all that SafepointEntry_write does. */
    method WriteEntry(e: Entry, inst: bv8)
      requires EntryAddresses(e) <= code.Keys
      modifies `code
      ensures code == Put(old(code), EntryAddresses(e), inst)
    {
      for i := 0 to |e.addresses|
        invariant code == Put(old(code), (set a | a in e.addresses[..i]), inst)
      {
        assert e.addresses[..i + 1] == e.addresses[..i] + [e.addresses[i]];
        assert e.addresses[i] in EntryAddresses(e);
        code := code[e.addresses[i] := inst];
      }
      assert e.addresses[..|e.addresses|] == e.addresses;
    }

    method WriteFile(entries: seq<Entry>, inst: bv8)
      requires EntriesAddresses(entries) <= code.Keys
      modifies `code
      ensures code == Put(old(code), EntriesAddresses(entries), inst)
    {
      assert Put(code, {}, inst) == code;
      for i := 0 to |entries|
        invariant code == Put(old(code), EntriesAddresses(entries[..i]), inst)
      {
        assert entries[..i + 1] == entries[..i] + [entries[i]];
        assert EntriesAddresses(entries[..i + 1]) == EntriesAddresses(entries[..i]) + EntryAddresses(entries[i]);
        assert EntryAddresses(entries[i]) <= EntriesAddresses(entries);
        PutTwice(old(code), EntriesAddresses(entries[..i]), EntryAddresses(entries[i]), inst);
        WriteEntry(entries[i], inst);
      }
      assert entries[..|entries|] == entries;
    }

    method WriteTable(inst: bv8)
      requires TableAddresses(table) <= code.Keys
      modifies `code
      ensures code == Put(old(code), TableAddresses(table), inst)
    {
      assert Put(code, {}, inst) == code;
      for i := 0 to |table|
        invariant code == Put(old(code), TableAddresses(table[..i]), inst)
      {
        assert table[..i + 1] == table[..i] + [table[i]];
        assert TableAddresses(table[..i + 1]) == TableAddresses(table[..i]) + EntriesAddresses(table[i]);
        assert EntriesAddresses(table[i]) <= TableAddresses(table);
        PutTwice(old(code), TableAddresses(table[..i]), EntriesAddresses(table[i]), inst);
        WriteFile(table[i], inst);
      }
      assert table[..|table|] == table;
    }

    /** Each entry of the node in turn. */
    method WritePicked(f: nat, entries: seq<nat>, inst: bv8)
      requires GoodNode(table, Node(f, entries)) && TableAddresses(table) <= code.Keys
      modifies `code
      ensures code == Put(old(code), Picked(table, f, entries), inst)
    {
      assert Put(code, {}, inst) == code;
      for i := 0 to |entries|
        invariant code == Put(old(code), Picked(table, f, entries[..i]), inst)
      {
        PickOne(table, f, entries[..i], entries[i]);
        assert entries[..i + 1] == entries[..i] + [entries[i]];
        PutTwice(old(code), Picked(table, f, entries[..i]), EntryAddresses(table[f][entries[i]]), inst);
        WriteEntry(table[f][entries[i]], inst);
      }
      assert entries[..|entries|] == entries;
    }

    /** ActiveFileSafepoints_restore. */
    method Restore()
      requires (forall n :: n in active ==> GoodNode(table, n)) && TableAddresses(table) <= code.Keys
      modifies `code
      ensures code == Put(old(code), ActiveAddresses(table, active), INT3)
    {
      assert Put(code, {}, INT3) == code;
      for i := 0 to |active|
        invariant code == Put(old(code), ActiveAddresses(table, active[..i]), INT3)
      {
        var n := active[i];
        assert active[..i + 1] == active[..i] + [n];
        assert GoodNode(table, n);
        assert ActiveAddresses(table, active[..i + 1])
            == ActiveAddresses(table, active[..i]) + Picked(table, n.file, n.entries);
        PutTwice(old(code), ActiveAddresses(table, active[..i]), Picked(table, n.file, n.entries), INT3);
        WritePicked(n.file, n.entries, INT3);
      }
      assert active[..|active|] == active;
    }

    method EnableAll()
      requires Valid()
      modifies this
      ensures Valid() && Now() == EnableAllStep(table, old(Now()))
    {
      EnableKeepsInv(table, Now());
      TableIsMapped(table, Now());
      if !enabled {
        WriteTable(INT3);
        enabled := true;
        cleared := {};
      }
    }

    method DisableAll()
      requires Valid()
      modifies this
      ensures Valid() && Now() == DisableAllStep(table, old(Now()))
    {
      DisableKeepsInv(table, Now());
      TableIsMapped(table, Now());
      if enabled {
        WriteTable(NOP);
        enabled := false;
        Restore();
      }
    }

    /** ActiveFileSafepoints_destroy: unlinks the first node of the file. */
    method Destroy(f: nat)
      modifies `active
      ensures active == Without(old(active), f)
    {
      for i := 0 to |active|
        invariant active == old(active)
        invariant Without(active, f) == active[..i] + Without(active[i..], f)
      {
        WithoutStep(active, f, i);
        hide Without;
        if active[i].file == f {
          active := active[..i] + active[i + 1..];
          return;
        }
      }
    }

    /** FileSafepoints_find. */
    method Find(entries: seq<Entry>, line: nat) returns (found: Option<nat>)
      ensures found == FindEntry(entries, line)
    {
      for i := 0 to |entries|
        invariant FindFrom(entries, line, i) == FindFrom(entries, line, 0)
      {
        if entries[i].line >= line { return Some(i); }
      }
      found := None;
    }

    method SetBreakpoints(request: Request) returns (replies: seq<Reply>)
      requires Valid() && GoodRequest(table, request)
      modifies this
      ensures Valid() && Now() == SetStep(table, old(Now()), request)
      ensures replies ==
        if request.breakpoints.None? then []
        else Replies(if request.file.None? then [] else table[request.file.value], request.breakpoints.value)
    {
      SetKeepsInv(table, Now(), request);
      TableIsMapped(table, Now());
      var entries := if request.file.None? then [] else table[request.file.value];
      if request.file.Some? {
        Destroy(request.file.value);
        assert table[request.file.value] in table;
        WriteFile(entries, NOP);
        cleared := cleared + {request.file.value};
      }
      replies := [];
      if request.breakpoints.Some? {
        var chosen;
        chosen, replies := Choose(entries, request);
        if chosen != [] {
          assert chosen[0] < |entries|;
          active := [Node(request.file.value, chosen)] + active;
        }
      }
    }

    /** The loop over the breakpoints: looks each up and writes it unless everything is enabled already. */
    method Choose(entries: seq<Entry>, request: Request) returns (chosen: seq<nat>, replies: seq<Reply>)
      requires GoodRequest(table, request) && request.breakpoints.Some? && TableAddresses(table) <= code.Keys
      requires entries == if request.file.None? then [] else table[request.file.value]
      modifies `code
      ensures chosen == Chosen(entries, request.breakpoints.value)
      ensures replies == Replies(entries, request.breakpoints.value)
      ensures code == if enabled || request.file.None? then old(code)
                      else Put(old(code), Picked(table, request.file.value, chosen), INT3)
    {
      var breakpoints := request.breakpoints.value;
      chosen, replies := [], [];
      assert Put(code, {}, INT3) == code;
      assert request.file.Some? ==> Picked(table, request.file.value, []) == {};
      hide Put;
      hide Picked;
      hide TableAddresses;
      for i := 0 to |breakpoints|
        invariant chosen == Chosen(entries, breakpoints[..i]) && replies == Replies(entries, breakpoints[..i])
        invariant code == if enabled || request.file.None? then old(code)
                          else Put(old(code), Picked(table, request.file.value, chosen), INT3)
      {
        assert breakpoints[..i + 1][..i] == breakpoints[..i];
        if breakpoints[i].Some? {
          var line := LineOf(breakpoints[i].value);
          var entry := Find(entries, line);
          if entry.Some? {
            line := entries[entry.value].line;
            if entry.value !in chosen {
              PickOne(table, request.file.value, chosen, entry.value);
              chosen := chosen + [entry.value];
              if !enabled {
                PutTwice(old(code), Picked(table, request.file.value, Chosen(entries, breakpoints[..i])),
                         EntryAddresses(entries[entry.value]), INT3);
                WriteEntry(entries[entry.value], INT3);
              }
            }
          }
          replies := replies + [Reply(entry, entry.Some?, line)];
        }
      }
      assert breakpoints[..|breakpoints|] == breakpoints;
    }
  }

  lemma WithoutStep(active: seq<Node>, f: nat, i: nat)
    requires i < |active|
    ensures active[i].file == f ==> Without(active[i..], f) == active[i + 1..]
    ensures active[i].file != f ==>
      active[..i] + Without(active[i..], f) == active[..i + 1] + Without(active[i + 1..], f)
  {
    assert active[i..][0] == active[i] && active[i..][1..] == active[i + 1..];
    assert active[..i + 1] == active[..i] + [active[i]];
  }

  lemma PickOne(t: Table, f: nat, entries: seq<nat>, e: nat)
    requires GoodNode(t, Node(f, entries)) && e < |t[f]|
    ensures Picked(t, f, entries + [e]) == Picked(t, f, entries) + EntryAddresses(t[f][e])
    ensures EntryAddresses(t[f][e]) <= TableAddresses(t)
  {
    forall a | a in EntryAddresses(t[f][e])
      ensures a in TableAddresses(t)
    {
      TableHas(t, f, e, a);
    }
  }

  lemma TableIsMapped(t: Table, s: State)
    requires Inv(t, s)
    ensures TableAddresses(t) <= s.code.Keys
    ensures forall f :: f in t ==> EntriesAddresses(f) <= s.code.Keys
  {
    forall f: seq<Entry>, a | f in t && a in EntriesAddresses(f)
      ensures a in s.code
    {
      var i :| 0 <= i < |t| && t[i] == f;
      var e :| 0 <= e < |f| && a in f[e].addresses;
      assert a in t[i][e].addresses;
    }
  }
}
