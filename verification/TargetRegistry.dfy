/** The client's registry of saved targets: normalisation, and every run of the commands that change it. */
module TargetRegistry {
  import opened Base

  datatype Target = Target(name: string, addr: string)
  datatype Registry = Registry(targets: seq<Target>, current: Option<string>)

  // ---------------------------------------------------------------------
  // Finding targets
  // ---------------------------------------------------------------------

  /** The first target with the address. */
  function AddrIndex(ts: seq<Target>, addr: string): (r: Option<nat>)
    ensures r.Some? ==> r.value < |ts| && ts[r.value].addr == addr && forall i | 0 <= i < r.value :: ts[i].addr != addr
    ensures r.None? ==> forall i | 0 <= i < |ts| :: ts[i].addr != addr
  {
    if ts == [] then None
    else if ts[0].addr == addr then Some(0)
    else match AddrIndex(ts[1..], addr) case None => None case Some(i) => Some(i + 1)
  }

  /** The first target with the name. */
  function NameIndex(ts: seq<Target>, name: string): (r: Option<nat>)
    ensures r.Some? ==> r.value < |ts| && ts[r.value].name == name && forall i | 0 <= i < r.value :: ts[i].name != name
    ensures r.None? ==> forall i | 0 <= i < |ts| :: ts[i].name != name
  {
    if ts == [] then None
    else if ts[0].name == name then Some(0)
    else match NameIndex(ts[1..], name) case None => None case Some(i) => Some(i + 1)
  }

  /** primary_target_index: the current target by address, else by name, else the last one. */
  function PrimaryIndex(r: Registry): (i: Option<nat>)
    ensures i.Some? <==> r.targets != []
    ensures i.Some? ==> i.value < |r.targets|
  {
    if r.current.Some? && AddrIndex(r.targets, r.current.value).Some? then AddrIndex(r.targets, r.current.value)
    else if r.current.Some? && NameIndex(r.targets, r.current.value).Some? then NameIndex(r.targets, r.current.value)
    else if r.targets == [] then None
    else Some(|r.targets| - 1)
  }

  function PrimaryAddr(r: Registry): Option<string> {
    match PrimaryIndex(r) case None => None case Some(i) => Some(r.targets[i].addr)
  }

  // ---------------------------------------------------------------------
  // Normalisation
  // ---------------------------------------------------------------------

  predicate HasAddr(ts: seq<Target>, addr: string) {
    AddrIndex(ts, addr).Some?
  }

  function Without(ts: seq<Target>, addr: string): seq<Target> {
    if ts == [] then [] else (if ts[0].addr == addr then [] else [ts[0]]) + Without(ts[1..], addr)
  }

  /** The entries whose address does not come again. */
  function LastOfEach(ts: seq<Target>): seq<Target> {
    if ts == [] then [] else (if HasAddr(ts[1..], ts[0].addr) then [] else [ts[0]]) + LastOfEach(ts[1..])
  }

  function LastAddr(ts: seq<Target>): Option<string> {
    if ts == [] then None else Some(ts[|ts| - 1].addr)
  }

  function Normalized(r: Registry): Registry {
    var kept := LastOfEach(r.targets);
    Registry(kept, if PrimaryAddr(r).Some? && HasAddr(kept, PrimaryAddr(r).value) then PrimaryAddr(r) else LastAddr(kept))
  }

  ghost predicate DistinctAddrs(ts: seq<Target>) {
    forall i, j | 0 <= i < j < |ts| :: ts[i].addr != ts[j].addr
  }

  /** What every saved registry satisfies: distinct addresses, and a current target among them unless there is none. */
  ghost predicate Saved(r: Registry) {
    DistinctAddrs(r.targets) &&
    match r.current
    case None => r.targets == []
    case Some(addr) => HasAddr(r.targets, addr)
  }

  lemma {:induction false} WithoutMembers(ts: seq<Target>, addr: string)
    ensures forall t :: t in Without(ts, addr) <==> t in ts && t.addr != addr
    ensures DistinctAddrs(ts) ==> DistinctAddrs(Without(ts, addr))
  {
    if ts != [] {
      WithoutMembers(ts[1..], addr);
      var later := Without(ts[1..], addr);
      assert forall t :: t in ts <==> t == ts[0] || t in ts[1..];
      if DistinctAddrs(ts) {
        forall k | 0 <= k < |later|
          ensures later[k].addr != ts[0].addr
        {
          assert later[k] in ts[1..];
          var m :| 0 <= m < |ts[1..]| && ts[1..][m] == later[k];
          assert ts[m + 1] == later[k];
        }
      }
    }
  }

  lemma {:induction false} LastOfEachHas(ts: seq<Target>, addr: string)
    ensures HasAddr(LastOfEach(ts), addr) <==> HasAddr(ts, addr)
  {
    if ts != [] {
      hide HasAddr;
      var later := LastOfEach(ts[1..]);
      LastOfEachHas(ts[1..], addr);
      HasAddrCons(ts, addr);
      HasAddrCons([ts[0]] + later, addr);
      assert ([ts[0]] + later)[1..] == later && [] + later == later;
    }
  }

  lemma {:induction false} LastOfEachMembers(ts: seq<Target>)
    ensures DistinctAddrs(LastOfEach(ts))
    ensures forall t | t in LastOfEach(ts) :: t in ts
    ensures forall addr :: HasAddr(LastOfEach(ts), addr) <==> HasAddr(ts, addr)
  {
    forall addr
      ensures HasAddr(LastOfEach(ts), addr) <==> HasAddr(ts, addr)
    {
      LastOfEachHas(ts, addr);
    }
    if ts != [] {
      LastOfEachMembers(ts[1..]);
      if !HasAddr(ts[1..], ts[0].addr) {
        assert !HasAddr(LastOfEach(ts[1..]), ts[0].addr);
      }
    }
  }

  lemma HasAddrCons(ts: seq<Target>, addr: string)
    requires ts != []
    ensures HasAddr(ts, addr) <==> ts[0].addr == addr || HasAddr(ts[1..], addr)
  {
  }

  /** The place of an address's last entry. */
  function LastIndex(ts: seq<Target>, addr: string): (i: int)
    ensures -1 <= i < |ts|
    ensures i >= 0 ==> ts[i].addr == addr
    ensures forall k | i < k < |ts| :: ts[k].addr != addr
  {
    if ts == [] then -1
    else
      var last := |ts| - 1;
      if ts[last].addr == addr then last else LastIndex(ts[..last], addr)
  }

  lemma LastIndexUnique(ts: seq<Target>, addr: string, i: nat)
    requires i < |ts| && ts[i].addr == addr && forall k | i < k < |ts| :: ts[k].addr != addr
    ensures LastIndex(ts, addr) == i
  {
  }

  lemma LastIndexShifts(ts: seq<Target>, addr: string)
    requires ts != [] && HasAddr(ts[1..], addr)
    ensures LastIndex(ts, addr) == LastIndex(ts[1..], addr) + 1
  {
    var i := LastIndex(ts[1..], addr);
    var j := AddrIndex(ts[1..], addr).value;
    assert ts[1..][j].addr == addr;
    assert i >= 0;
    assert forall k | i + 1 < k < |ts| :: ts[k] == ts[1..][k - 1];
    LastIndexUnique(ts, addr, i + 1);
  }

  /** The last entry of its address. */
  predicate IsLast(ts: seq<Target>, t: Target) {
    LastIndex(ts, t.addr) >= 0 && t == ts[LastIndex(ts, t.addr)]
  }

  /** Last seen earlier. */
  predicate LastBefore(ts: seq<Target>, a: Target, b: Target) {
    LastIndex(ts, a.addr) < LastIndex(ts, b.addr)
  }

  /** Each kept entry is the last one of its address, and they stay in the order of those last places. */
  ghost predicate KeptInOrder(ts: seq<Target>, kept: seq<Target>) {
    (forall i | 0 <= i < |kept| :: IsLast(ts, kept[i])) &&
    forall i, j | 0 <= i < j < |kept| :: LastBefore(ts, kept[i], kept[j])
  }

  /** Every address keeps exactly its last entry, in last-occurrence order. */
  lemma {:induction false} LastOfEachExact(ts: seq<Target>)
    ensures KeptInOrder(ts, LastOfEach(ts)) && DistinctAddrs(LastOfEach(ts))
    ensures forall addr :: HasAddr(LastOfEach(ts), addr) <==> HasAddr(ts, addr)
  {
    hide IsLast, LastBefore, LastIndex;
    LastOfEachMembers(ts);
    if ts != [] {
      LastOfEachExact(ts[1..]);
      var kept, later := LastOfEach(ts), LastOfEach(ts[1..]);
      forall i | 0 <= i < |later|
        ensures IsLast(ts, later[i]) && (!HasAddr(ts[1..], ts[0].addr) ==> LastBefore(ts, ts[0], later[i]))
      {
        StaysLast(ts, later[i]);
      }
      forall i, j | 0 <= i < j < |later|
        ensures LastBefore(ts, later[i], later[j])
      {
        StaysBefore(ts, later[i], later[j]);
      }
      if HasAddr(ts[1..], ts[0].addr) {
        assert kept == later;
      } else {
        FirstIsKept(ts);
        assert kept == [ts[0]] + later;
      }
    }
  }

  lemma StaysLast(ts: seq<Target>, t: Target)
    requires ts != [] && IsLast(ts[1..], t)
    ensures IsLast(ts, t) && (!HasAddr(ts[1..], ts[0].addr) ==> LastBefore(ts, ts[0], t))
  {
    assert ts[1..][LastIndex(ts[1..], t.addr)].addr == t.addr;
    LastIndexShifts(ts, t.addr);
    if !HasAddr(ts[1..], ts[0].addr) {
      FirstIsKept(ts);
    }
  }

  lemma StaysBefore(ts: seq<Target>, a: Target, b: Target)
    requires ts != [] && IsLast(ts[1..], a) && IsLast(ts[1..], b) && LastBefore(ts[1..], a, b)
    ensures LastBefore(ts, a, b)
  {
    assert ts[1..][LastIndex(ts[1..], a.addr)].addr == a.addr;
    assert ts[1..][LastIndex(ts[1..], b.addr)].addr == b.addr;
    LastIndexShifts(ts, a.addr);
    LastIndexShifts(ts, b.addr);
  }

  lemma FirstIsKept(ts: seq<Target>)
    requires ts != [] && !HasAddr(ts[1..], ts[0].addr)
    ensures LastIndex(ts, ts[0].addr) == 0 && IsLast(ts, ts[0])
  {
    assert forall k | 0 < k < |ts| :: ts[k] == ts[1..][k - 1];
    LastIndexUnique(ts, ts[0].addr, 0);
  }

  lemma FirstIsLast(ts: seq<Target>)
    requires ts != [] && DistinctAddrs(ts)
    ensures !HasAddr(ts[1..], ts[0].addr)
  {
    assert forall k | 0 <= k < |ts[1..]| :: ts[1..][k] == ts[k + 1];
  }

  lemma {:induction false} DistinctIsKept(ts: seq<Target>)
    requires DistinctAddrs(ts)
    ensures LastOfEach(ts) == ts
  {
    if ts != [] {
      DistinctIsKept(ts[1..]);
      FirstIsLast(ts);
    }
  }

  lemma PrimaryHasAddr(r: Registry)
    ensures PrimaryAddr(r).Some? <==> r.targets != []
    ensures PrimaryAddr(r).Some? ==> HasAddr(r.targets, PrimaryAddr(r).value)
  {
  }

  /** Normalising gives a registry fit to be saved and keeps the primary target's address. */
  lemma NormalizedIsSaved(r: Registry)
    ensures Saved(Normalized(r)) && PrimaryAddr(Normalized(r)) == PrimaryAddr(r)
  {
    LastOfEachMembers(r.targets);
    PrimaryHasAddr(r);
    var kept := LastOfEach(r.targets);
    if r.targets == [] {
      assert kept == [];
    } else {
      var addr := PrimaryAddr(r).value;
      assert HasAddr(kept, addr);
      assert kept[AddrIndex(kept, addr).value].addr == addr;
    }
  }

  /** A saved registry is left alone; so normalising twice is normalising once. */
  lemma NormalizedTwice(r: Registry)
    ensures Saved(r) ==> Normalized(r) == r
    ensures Normalized(Normalized(r)) == Normalized(r)
  {
    NormalizedIsSaved(r);
    SavedStays(r);
    SavedStays(Normalized(r));
  }

  lemma SavedStays(r: Registry)
    ensures Saved(r) ==> Normalized(r) == r
  {
    if Saved(r) {
      DistinctIsKept(r.targets);
      if r.current.Some? {
        assert PrimaryAddr(r) == r.current;
      }
    }
  }

  // ---------------------------------------------------------------------
  // The loop
  // ---------------------------------------------------------------------

  lemma {:induction false} WithoutAbsent(ts: seq<Target>, addr: string)
    requires !HasAddr(ts, addr)
    ensures Without(ts, addr) == ts
  {
    if ts != [] {
      WithoutAbsent(ts[1..], addr);
    }
  }

  lemma {:induction false} RemoveFirst(ts: seq<Target>, addr: string)
    requires DistinctAddrs(ts) && HasAddr(ts, addr)
    ensures var i := AddrIndex(ts, addr).value; ts[..i] + ts[i + 1..] == Without(ts, addr)
  {
    var i := AddrIndex(ts, addr).value;
    if i == 0 {
      FirstIsLast(ts);
      WithoutAbsent(ts[1..], addr);
    } else {
      RemoveFirst(ts[1..], addr);
      assert ts[..i] + ts[i + 1..] == [ts[0]] + (ts[1..][..i - 1] + ts[1..][i..]);
    }
  }

  /** One more entry replaces an earlier one with its address and goes to the end. */
  lemma {:induction false} LastOfEachSnoc(ts: seq<Target>, t: Target)
    ensures LastOfEach(ts + [t]) == Without(LastOfEach(ts), t.addr) + [t]
  {
    if ts == [] {
      assert ([] + [t])[1..] == [];
    } else {
      LastOfEachSnoc(ts[1..], t);
      assert (ts + [t])[0] == ts[0] && (ts + [t])[1..] == ts[1..] + [t];
      AddrSnoc(ts[1..], t, ts[0].addr);
      hide HasAddr;
      var head := if HasAddr(ts[1..], ts[0].addr) then [] else [ts[0]];
      var later := LastOfEach(ts[1..]);
      WithoutCons(head, later, t.addr);
      var kept := if head != [] && ts[0].addr == t.addr then [] else head;
      assert kept + (Without(later, t.addr) + [t]) == kept + Without(later, t.addr) + [t];
    }
  }

  lemma WithoutCons(head: seq<Target>, later: seq<Target>, addr: string)
    requires |head| <= 1
    ensures Without(head + later, addr) == (if head != [] && head[0].addr == addr then [] else head) + Without(later, addr)
  {
    if head == [] {
      assert head + later == later;
    } else {
      assert (head + later)[1..] == later && head == [head[0]];
    }
  }

  lemma AddrSnoc(ts: seq<Target>, t: Target, addr: string)
    ensures HasAddr(ts + [t], addr) <==> HasAddr(ts, addr) || t.addr == addr
  {
    if HasAddr(ts, addr) {
      assert (ts + [t])[AddrIndex(ts, addr).value].addr == addr;
    }
    assert (ts + [t])[|ts|] == t;
  }

  method NormalizeRegistry(r: Registry) returns (n: Registry)
    ensures n == Normalized(r)
  {
    var deduped: seq<Target> := [];
    for i := 0 to |r.targets|
      invariant deduped == LastOfEach(r.targets[..i])
    {
      var target := r.targets[i];
      assert r.targets[..i + 1] == r.targets[..i] + [target];
      LastOfEachSnoc(r.targets[..i], target);
      LastOfEachMembers(r.targets[..i]);
      var index := AddrIndex(deduped, target.addr);
      if index.Some? {
        RemoveFirst(deduped, target.addr);
        deduped := deduped[..index.value] + deduped[index.value + 1..];
      } else {
        WithoutAbsent(deduped, target.addr);
      }
      deduped := deduped + [target];
    }
    assert r.targets[..|r.targets|] == r.targets;
    var current := PrimaryAddr(r);
    if current.Some? && !HasAddr(deduped, current.value) {
      current := None;
    }
    n := Registry(deduped, if current.Some? then current else LastAddr(deduped));
  }

  // ---------------------------------------------------------------------
  // The commands
  // ---------------------------------------------------------------------

  /**
   The commands that change the registry, with addresses already normalised: connecting, with the name asked for and
   the one to fall back on; disconnecting; and listing devices, when the probed primary target reports a new name.
   */
  datatype Command =
    | Connect(addr: string, requested: Option<string>, fallback: string)
    | Disconnect(selector: Option<string>)
    | Devices(updatedName: Option<string>)

  /** default_name: every character but letters and digits becomes a dash. */
  function DefaultName(addr: string): string {
    if addr == "" then ""
    else
      var c := addr[0];
      [if 'a' <= c <= 'z' || 'A' <= c <= 'Z' || '0' <= c <= '9' then c else '-'] + DefaultName(addr[1..])
  }

  function NameFor(r: Registry, addr: string, requested: Option<string>, fallback: string): string {
    if requested.Some? then requested.value
    else
      match AddrIndex(r.targets, addr)
      case Some(i) => if r.targets[i].name != DefaultName(addr) then r.targets[i].name else fallback
      case None => fallback
  }

  /** The registry a command hands to the saving step, if it gets that far; `r` is the loaded one. */
  function Changed(r: Registry, cmd: Command): Option<Registry> {
    match cmd
    case Connect(addr, requested, fallback) =>
      Some(Registry(Without(r.targets, addr) + [Target(NameFor(r, addr, requested, fallback), addr)], Some(addr)))
    case Disconnect(selector) =>
      (match if selector.Some? then AddrIndex(r.targets, selector.value) else PrimaryIndex(r)
       case None => None
       case Some(i) => Some(Dropped(r, i)))
    case Devices(updatedName) =>
      if updatedName.None? || PrimaryIndex(r).None? then None
      else
        var i := PrimaryIndex(r).value;
        Some(r.(targets := r.targets[i := r.targets[i].(name := updatedName.value)]))
  }

  /** Dropping target `i`; the current target moves to the last one if it is the dropped one, or goes by its name. */
  function Dropped(r: Registry, i: nat): Registry
    requires i < |r.targets|
  {
    var rest := r.targets[..i] + r.targets[i + 1..];
    Registry(rest,
             if rest == [] then None
             else if r.current == Some(r.targets[i].addr) || r.current == Some(r.targets[i].name) then LastAddr(rest)
             else r.current)
  }

  /** What is in the registry file after a command that found `stored` there. */
  function After(stored: Registry, cmd: Command): Registry {
    var loaded := Normalized(stored);
    match Changed(loaded, cmd) case None => loaded case Some(r) => Normalized(r)
  }

  /** The registry file. */
  class Store {
    var file: Registry

    constructor (r: Registry)
      ensures file == r
    {
      file := r;
    }

    /** load_registry: what is read is normalised, and written back if that changed it. */
    method Load() returns (r: Registry)
      modifies this
      ensures r == Normalized(old(file)) && file == r
    {
      r := NormalizeRegistry(file);
      if r != file {
        file := r;
      }
    }

    method Save(r: Registry)
      modifies this
      ensures file == Normalized(r)
    {
      file := NormalizeRegistry(r);
    }

    method ConnectCommand(addr: string, requested: Option<string>, fallback: string)
      modifies this
      ensures file == After(old(file), Connect(addr, requested, fallback))
    {
      var registry := Load();
      var name := NameFor(registry, addr, requested, fallback);
      var targets := Retain(registry.targets, addr);
      registry := registry.(targets := targets + [Target(name, addr)], current := Some(addr));
      Save(registry);
    }

    method DisconnectCommand(selector: Option<string>) returns (removed: Option<Target>)
      modifies this
      ensures file == After(old(file), Disconnect(selector))
      ensures removed.None? <==> Changed(Normalized(old(file)), Disconnect(selector)).None?
    {
      var registry := Load();
      var index := if selector.Some? then AddrIndex(registry.targets, selector.value) else PrimaryIndex(registry);
      if index.None? {
        return None;
      }
      var target := registry.targets[index.value];
      var current := registry.current;
      registry := registry.(targets := registry.targets[..index.value] + registry.targets[index.value + 1..]);
      if registry.targets == [] {
        registry := registry.(current := None);
      } else if current == Some(target.addr) || current == Some(target.name) {
        registry := registry.(current := LastAddr(registry.targets));
      }
      Save(registry);
      removed := Some(target);
    }

    method DevicesCommand(updatedName: Option<string>)
      modifies this
      ensures file == After(old(file), Devices(updatedName))
    {
      var registry := Load();
      var primary := PrimaryIndex(registry);
      if primary.Some? && updatedName.Some? {
        var i := primary.value;
        registry := registry.(targets := registry.targets[i := registry.targets[i].(name := updatedName.value)]);
        Save(registry);
      }
    }
  }

  /** retain: keep the targets at other addresses. */
  method Retain(ts: seq<Target>, addr: string) returns (kept: seq<Target>)
    ensures kept == Without(ts, addr)
  {
    kept := [];
    assert ts[0..] == ts;
    for i := 0 to |ts|
      invariant kept + Without(ts[i..], addr) == Without(ts, addr)
    {
      assert ts[i..][1..] == ts[i + 1..];
      if ts[i].addr != addr {
        kept := kept + [ts[i]];
      }
    }
  }

  // ---------------------------------------------------------------------
  // All runs
  // ---------------------------------------------------------------------

  function AfterAll(stored: Registry, cmds: seq<Command>): Registry
    decreases |cmds|
  {
    if cmds == [] then stored else AfterAll(After(stored, cmds[0]), cmds[1..])
  }

  /** After any run of commands on any file, the file holds a registry fit to be saved. */
  lemma {:induction false} EveryRunSaves(stored: Registry, cmds: seq<Command>)
    requires cmds != [] || Saved(stored)
    ensures Saved(AfterAll(stored, cmds))
    decreases |cmds|
  {
    if cmds != [] {
      AfterIsSaved(stored, cmds[0]);
      EveryRunSaves(After(stored, cmds[0]), cmds[1..]);
    }
  }

  lemma AfterIsSaved(stored: Registry, cmd: Command)
    ensures Saved(After(stored, cmd))
  {
    var loaded := Normalized(stored);
    NormalizedIsSaved(stored);
    match Changed(loaded, cmd)
    case None =>
    case Some(r) => NormalizedIsSaved(r);
  }

  /** The name is only the address with everything but letters and digits turned into dashes. */
  ghost predicate AutomaticName(name: string, addr: string) {
    |name| == |addr| &&
    forall i | 0 <= i < |addr| ::
      name[i] == if 'a' <= addr[i] <= 'z' || 'A' <= addr[i] <= 'Z' || '0' <= addr[i] <= '9' then addr[i] else '-'
  }

  lemma {:induction false} DefaultNameAt(addr: string)
    ensures AutomaticName(DefaultName(addr), addr)
  {
    if addr != "" {
      DefaultNameAt(addr[1..]);
      var rest := DefaultName(addr[1..]);
      forall i | 0 <= i < |addr|
        ensures DefaultName(addr)[i] ==
                if 'a' <= addr[i] <= 'z' || 'A' <= addr[i] <= 'Z' || '0' <= addr[i] <= '9' then addr[i] else '-'
      {
        if i > 0 {
          assert DefaultName(addr)[i] == rest[i - 1] && addr[1..][i - 1] == addr[i];
        }
      }
    }
  }

  lemma DefaultIsAutomatic(name: string, addr: string)
    ensures name == DefaultName(addr) <==> AutomaticName(name, addr)
  {
    DefaultNameAt(addr);
    hide DefaultName;
    if AutomaticName(name, addr) {
      assert forall i | 0 <= i < |name| :: name[i] == DefaultName(addr)[i];
    }
  }

  /**
   The name a connected target gets: the one asked for; or else that of the target already saved at the address, unless
   it is only an automatic one; or else the fallback.
   */
  ghost predicate NamedAsAsked(ts: seq<Target>, addr: string, requested: Option<string>, fallback: string, name: string) {
    match requested
    case Some(asked) => name == asked
    case None =>
      (forall i | 0 <= i < |ts| && ts[i].addr == addr ::
         name == if AutomaticName(ts[i].name, addr) then fallback else ts[i].name) &&
      ((forall i | 0 <= i < |ts| :: ts[i].addr != addr) ==> name == fallback)
  }

  lemma NameForExact(r: Registry, addr: string, requested: Option<string>, fallback: string)
    requires DistinctAddrs(r.targets)
    ensures NamedAsAsked(r.targets, addr, requested, fallback, NameFor(r, addr, requested, fallback))
  {
    var index := AddrIndex(r.targets, addr);
    if index.Some? {
      DefaultIsAutomatic(r.targets[index.value].name, addr);
    }
    forall i | 0 <= i < |r.targets| && r.targets[i].addr == addr
      ensures index == Some(i)
    {
    }
  }

  /** The targets at other addresses, in order: the one at the address, if there is one, is cut out. */
  ghost predicate CutOut(ts: seq<Target>, addr: string, rest: seq<Target>) {
    (forall i | 0 <= i < |ts| && ts[i].addr == addr :: rest == ts[..i] + ts[i + 1..]) &&
    ((forall i | 0 <= i < |ts| :: ts[i].addr != addr) ==> rest == ts)
  }

  lemma WithoutCutsOut(ts: seq<Target>, addr: string)
    requires DistinctAddrs(ts)
    ensures CutOut(ts, addr, Without(ts, addr))
  {
    var index := AddrIndex(ts, addr);
    if index.Some? {
      RemoveFirst(ts, addr);
      forall i | 0 <= i < |ts| && ts[i].addr == addr
        ensures index == Some(i)
      {
      }
    } else {
      WithoutAbsent(ts, addr);
    }
  }

  /**
   After connecting, that address is the current target and the last, under the name asked for, its own saved one or the
   fallback; every other target is kept, in order.
   */
  lemma ConnectExact(stored: Registry, addr: string, requested: Option<string>, fallback: string)
    requires Saved(stored)
    ensures var r := After(stored, Connect(addr, requested, fallback));
            r.targets != [] && r.current == Some(addr) && PrimaryAddr(r) == Some(addr) &&
            var last := r.targets[|r.targets| - 1];
            last.addr == addr && NamedAsAsked(stored.targets, addr, requested, fallback, last.name) &&
            CutOut(stored.targets, addr, r.targets[..|r.targets| - 1])
  {
    hide *;
    SavedIsDistinct(stored);
    ConnectSteps(stored, addr, requested, fallback);
    NameForExact(stored, addr, requested, fallback);
    WithoutCutsOut(stored.targets, addr);
    var kept, last := Without(stored.targets, addr), Target(NameFor(stored, addr, requested, fallback), addr);
    assert (kept + [last])[..|kept|] == kept && (kept + [last])[|kept|] == last;
  }

  lemma SavedIsDistinct(r: Registry)
    requires Saved(r)
    ensures DistinctAddrs(r.targets)
  {
  }

  lemma ConnectSteps(stored: Registry, addr: string, requested: Option<string>, fallback: string)
    requires Saved(stored)
    ensures var r := After(stored, Connect(addr, requested, fallback));
            r.targets == Without(stored.targets, addr) + [Target(NameFor(stored, addr, requested, fallback), addr)] &&
            r.current == PrimaryAddr(r) == Some(addr)
  {
    var name := NameFor(stored, addr, requested, fallback);
    var ts := Without(stored.targets, addr) + [Target(name, addr)];
    NormalizedTwice(stored);
    WithoutMembers(stored.targets, addr);
    assert DistinctAddrs(ts) by {
      forall i | 0 <= i < |ts| - 1
        ensures ts[i].addr != addr
      {
        assert ts[i] in Without(stored.targets, addr);
      }
    }
    AddrSnoc(Without(stored.targets, addr), Target(name, addr), addr);
    NormalizedTwice(Registry(ts, Some(addr)));
    assert ts[AddrIndex(ts, addr).value].addr == addr;
  }

  /** The primary target: the first at the current address, else the first of that name, else the last. */
  lemma PrimaryExact(r: Registry, i: nat)
    requires i < |r.targets|
    ensures var ts := r.targets;
            var atAddr := r.current.Some? && exists k | 0 <= k < |ts| :: ts[k].addr == r.current.value;
            var ofName := r.current.Some? && exists k | 0 <= k < |ts| :: ts[k].name == r.current.value;
            PrimaryIndex(r) == Some(i) <==>
            if atAddr then ts[i].addr == r.current.value && forall k | 0 <= k < i :: ts[k].addr != r.current.value
            else if ofName then ts[i].name == r.current.value && forall k | 0 <= k < i :: ts[k].name != r.current.value
            else i == |ts| - 1
  {
  }

  lemma {:induction false} DroppedKeepsDistinct(ts: seq<Target>, i: nat)
    requires DistinctAddrs(ts) && i < |ts|
    ensures DistinctAddrs(ts[..i] + ts[i + 1..])
    ensures forall addr :: HasAddr(ts[..i] + ts[i + 1..], addr) <==> HasAddr(ts, addr) && addr != ts[i].addr
  {
    var rest := ts[..i] + ts[i + 1..];
    forall addr
      ensures HasAddr(rest, addr) <==> HasAddr(ts, addr) && addr != ts[i].addr
    {
      if HasAddr(rest, addr) {
        var k := AddrIndex(rest, addr).value;
        assert rest[k] == ts[if k < i then k else k + 1];
      }
      if HasAddr(ts, addr) && addr != ts[i].addr {
        var k := AddrIndex(ts, addr).value;
        assert rest[if k < i then k else k - 1] == ts[k];
      }
    }
  }

  /**
   Disconnecting removes exactly the chosen target. The current target stays, or becomes the last of the rest if it is
   the one removed or the removed target's name happens to be its address; of no targets none is current.
   */
  lemma DisconnectExact(stored: Registry, selector: Option<string>, i: nat)
    requires Saved(stored)
    requires (if selector.Some? then AddrIndex(stored.targets, selector.value) else PrimaryIndex(stored)) == Some(i)
    ensures var r, rest := After(stored, Disconnect(selector)), stored.targets[..i] + stored.targets[i + 1..];
            var moves := stored.current == Some(stored.targets[i].addr) || stored.current == Some(stored.targets[i].name);
            r.targets == rest &&
            r.current == (if rest == [] then None else if moves then Some(rest[|rest| - 1].addr) else stored.current) &&
            (PrimaryAddr(r) == PrimaryAddr(stored) <==>
               stored.current != Some(stored.targets[i].addr) &&
               (stored.current != Some(stored.targets[i].name) || LastAddr(rest) == stored.current))
  {
    var gone, rest := stored.targets[i], stored.targets[..i] + stored.targets[i + 1..];
    NormalizedTwice(stored);
    DroppedKeepsDistinct(stored.targets, i);
    var dropped := Dropped(stored, i);
    assert rest != [] ==> HasAddr(rest, rest[|rest| - 1].addr);
    assert Saved(dropped);
    NormalizedTwice(dropped);
    CurrentIsPrimary(stored);
    CurrentIsPrimary(dropped);
  }

  /** Renaming after a probe changes the primary target's name and nothing else. */
  lemma DevicesExact(stored: Registry, name: string, i: nat)
    requires Saved(stored) && PrimaryIndex(stored) == Some(i)
    ensures var r := After(stored, Devices(Some(name)));
            r.targets == stored.targets[i := Target(name, stored.targets[i].addr)] &&
            r.current == stored.current && PrimaryAddr(r) == PrimaryAddr(stored) == Some(stored.targets[i].addr)
  {
    var ts := stored.targets[i := Target(name, stored.targets[i].addr)];
    NormalizedTwice(stored);
    CurrentIsPrimary(stored);
    assert ts[i].addr == stored.targets[i].addr;
    assert HasAddr(ts, stored.targets[i].addr);
    NormalizedTwice(Registry(ts, stored.current));
    CurrentIsPrimary(Registry(ts, stored.current));
  }

  lemma CurrentIsPrimary(r: Registry)
    requires Saved(r)
    ensures PrimaryAddr(r) == r.current
  {
    if r.current.Some? {
      assert r.targets[AddrIndex(r.targets, r.current.value).value].addr == r.current.value;
    }
  }
}
