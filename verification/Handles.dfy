/**
 LibInstallProtocolInterfaces of lib/hand.c over an abstract handle database that
 behaves as section 6.3 of UEFI 2.3 describes: a handle exists as long as it carries a
 protocol, carries each protocol at most once, and installing may fail for lack of
 resources or otherwise at any time: what the firmware answers is an arbitrary input.
 */
module Handles {
  import opened Words

  type Handle = nat
  type Guid = nat
  type Interface = nat
  type Protocols = map<Guid, Interface>
  type Database = map<Handle, Protocols>

  datatype Status = Success | InvalidParameter | OutOfResources | NotFound {
    predicate IsError() {
      this != Success
    }
  }

  const TPL_NOTIFY: nat := 16

  ghost predicate IsDatabase(db: Database) {
    forall h :: h in db ==> db[h] != map[]
  }

  function ProtocolsOn(db: Database, h: Handle): Protocols {
    if h in db then db[h] else map[]
  }

  function WithProtocol(db: Database, h: Handle, p: Guid, i: Interface): Database {
    db[h := ProtocolsOn(db, h)[p := i]]
  }

  /** Without its last protocol a handle goes away. */
  function WithoutProtocol(db: Database, h: Handle, p: Guid): Database {
    var rest := ProtocolsOn(db, h) - {p};
    if rest == map[] then db - {h} else db[h := rest]
  }

  datatype Entry = Entry(protocol: Guid, interface: Interface)

  function AddAll(m: Protocols, list: seq<Entry>): Protocols {
    if list == [] then m
    else AddAll(m, list[..|list| - 1])[list[|list| - 1].protocol := list[|list| - 1].interface]
  }

  /** The database with all the listed interfaces on `h`. */
  function WithAll(db: Database, h: Handle, list: seq<Entry>): Database {
    if list == [] then db else db[h := AddAll(ProtocolsOn(db, h), list)]
  }

  /** The listed protocols are distinct and new to the handle. */
  ghost predicate AreNew(m: Protocols, list: seq<Entry>) {
    && (forall k :: 0 <= k < |list| ==> list[k].protocol !in m)
    && (forall j, k :: 0 <= j < k < |list| ==> list[j].protocol != list[k].protocol)
  }

  /** One of the n calls from number `first` on is refused. */
  ghost predicate RefusesAny(answers: nat -> Status, first: nat, n: nat) {
    exists k: nat :: first <= k < first + n && answers(k).IsError()
  }

  /** The handle, if given, exists, and does not have the protocol yet. */
  predicate CanInstall(db: Database, handle: Option<Handle>, p: Guid) {
    handle.Some? ==> handle.value in db && p !in db[handle.value]
  }

  /** The list fits on the handle, or on a new one. */
  ghost predicate FitsOn(db: Database, handle: Option<Handle>, list: seq<Entry>) {
    list == [] || if handle.Some? then handle.value in db && AreNew(db[handle.value], list) else AreNew(map[], list)
  }

  /** The boot services the routine calls. */
  class BootServices {
    var db: Database
    var tpl: nat
    /** Handles from here on were never given out. */
    var unused: Handle
    /** What the firmware answers to its k-th installation, if that is valid. */
    const answers: nat -> Status
    /** Installations asked for so far. */
    var asked: nat
    /** The task priority at each installation and removal. */
    ghost var levels: seq<nat>

    ghost predicate Valid()
      reads this
    {
      IsDatabase(db) && forall h :: h in db ==> h < unused
    }

    constructor (answers: nat -> Status)
      ensures Valid() && db == map[] && tpl == 0 && asked == 0 && levels == [] && this.answers == answers
    {
      db, tpl, unused, asked, levels := map[], 0, 0, 0, [];
      this.answers := answers;
    }

    method RaiseTPL(level: nat) returns (before: nat)
      modifies this`tpl
      ensures before == old(tpl) && tpl == level
    {
      before, tpl := tpl, level;
    }

    method RestoreTPL(level: nat)
      modifies this`tpl
      ensures tpl == level
    {
      tpl := level;
    }

    /** InstallProtocolInterface: no handle means a new one. */
    method InstallProtocolInterface(handle: Option<Handle>, p: Guid, i: Interface) returns (status: Status, h: Option<Handle>)
      requires Valid() && (handle.Some? ==> handle.value < unused)
      modifies this`db, this`unused, this`asked, this`levels
      ensures Valid() && (h.Some? ==> h.value < unused) && asked == old(asked) + 1 && levels == old(levels) + [tpl]
      ensures status == if CanInstall(old(db), handle, p) then answers(old(asked)) else InvalidParameter
      ensures status.IsError() ==> db == old(db) && h == handle
      ensures !status.IsError() ==> h.Some? && db == WithProtocol(old(db), h.value, p, i)
      ensures !status.IsError() ==> if handle.Some? then h == handle else h.value !in old(db)
    {
      h, asked, levels := handle, asked + 1, levels + [tpl];
      if !CanInstall(db, handle, p) {
        return InvalidParameter, h;
      }
      status := answers(asked - 1);
      if status.IsError() {
        return;
      }
      if handle.None? {
        h, unused := Some(unused), unused + 1;
      }
      db := WithProtocol(db, h.value, p, i);
      assert p in db[h.value];
    }

    /** UninstallProtocolInterface. */
    method UninstallProtocolInterface(h: Handle, p: Guid, i: Interface) returns (status: Status)
      requires Valid()
      modifies this`db, this`levels
      ensures Valid() && levels == old(levels) + [tpl]
      ensures if h in old(db) && p in old(db)[h] && old(db)[h][p] == i then !status.IsError() && db == WithoutProtocol(old(db), h, p)
              else status.IsError() && db == old(db)
    {
      levels := levels + [tpl];
      if h in db && p in db[h] && db[h][p] == i {
        db := WithoutProtocol(db, h, p);
        status := Success;
      } else {
        status := NotFound;
      }
    }
  }

  // ----- installing and undoing -----

  lemma {:induction false} InstallingOneMore(db: Database, h: Handle, list: seq<Entry>, k: nat)
    requires k < |list|
    ensures WithProtocol(WithAll(db, h, list[..k]), h, list[k].protocol, list[k].interface) == WithAll(db, h, list[..k + 1])
  {
    assert list[..k + 1][..k] == list[..k];
  }

  lemma {:induction false} AddedKeys(m: Protocols, list: seq<Entry>, p: Guid)
    ensures p in AddAll(m, list) <==> p in m || exists k :: 0 <= k < |list| && list[k].protocol == p
  {
    if list != [] {
      var last := |list| - 1;
      AddedKeys(m, list[..last], p);
      assert forall k :: 0 <= k < last ==> list[..last][k] == list[k];
    }
  }

  /** Every listed interface is there. */
  lemma {:induction false} AddedValues(m: Protocols, list: seq<Entry>, k: nat)
    requires k < |list| && AreNew(m, list)
    ensures list[k].protocol in AddAll(m, list) && AddAll(m, list)[list[k].protocol] == list[k].interface
  {
    if k < |list| - 1 {
      AddedValues(m, list[..|list| - 1], k);
    }
  }

  /** What was there before stays. */
  lemma {:induction false} AddedKeepsOthers(m: Protocols, list: seq<Entry>, p: Guid)
    requires forall k :: 0 <= k < |list| ==> list[k].protocol != p
    ensures p in AddAll(m, list) <==> p in m
    ensures p in m ==> AddAll(m, list)[p] == m[p]
  {
    if list != [] {
      AddedKeepsOthers(m, list[..|list| - 1], p);
    }
  }

  /** Taking the first listed protocol away again is never having listed it. */
  lemma {:induction false} AddAllWithoutFirst(m: Protocols, list: seq<Entry>)
    requires list != [] && AreNew(m, list)
    ensures AddAll(m, list) - {list[0].protocol} == AddAll(m, list[1..])
  {
    var last := |list| - 1;
    if last == 0 {
      assert AddAll(m, list[..0]) == m;
    } else {
      AddAllWithoutFirst(m, list[..last]);
      assert list[..last][1..] == list[1..][..last - 1];
    }
  }

  lemma {:induction false} UndoingFirst(db: Database, h: Handle, list: seq<Entry>)
    requires IsDatabase(db) && list != [] && AreNew(ProtocolsOn(db, h), list)
    ensures WithoutProtocol(WithAll(db, h, list), h, list[0].protocol) == WithAll(db, h, list[1..])
    ensures AreNew(ProtocolsOn(db, h), list[1..])
  {
    AddAllWithoutFirst(ProtocolsOn(db, h), list);
    if |list| > 1 {
      AddedKeys(ProtocolsOn(db, h), list[1..], list[1].protocol);
      assert list[1..][0] == list[1];
    }
  }

  /** Where an installation is invalid, the list does not fit. */
  lemma {:induction false} DoesNotFit(db: Database, handle: Option<Handle>, h: Option<Handle>, list: seq<Entry>, k: nat)
    requires k < |list| && IsDatabase(db)
    requires if k == 0 then h == handle else h.Some? && if handle.Some? then h == handle else h.value !in db
    requires !CanInstall(if k == 0 then db else WithAll(db, h.value, list[..k]), h, list[k].protocol)
    ensures !FitsOn(db, handle, list)
  {
    if k > 0 {
      AddedKeys(ProtocolsOn(db, h.value), list[..k], list[k].protocol);
    }
  }

  lemma {:induction false} NewOneMore(db: Database, h: Handle, list: seq<Entry>, k: nat)
    requires k < |list| && AreNew(ProtocolsOn(db, h), list[..k])
    requires list[k].protocol !in ProtocolsOn(WithAll(db, h, list[..k]), h)
    ensures AreNew(ProtocolsOn(db, h), list[..k + 1])
  {
    AddedKeys(ProtocolsOn(db, h), list[..k], list[k].protocol);
    assert forall j :: 0 <= j < k ==> list[..k + 1][j] == list[..k][j] == list[j];
  }

  /** The rollback: the list again from its start, as far as it was installed. */
  method Undo(bs: BootServices, h: Handle, list: seq<Entry>, installed: nat, ghost before: Database)
    requires bs.Valid() && 0 < installed <= |list| && IsDatabase(before)
    requires bs.db == WithAll(before, h, list[..installed]) && AreNew(ProtocolsOn(before, h), list[..installed])
    modifies bs`db, bs`levels
    ensures bs.Valid() && bs.db == before
    ensures old(bs.levels) <= bs.levels && forall i :: |old(bs.levels)| <= i < |bs.levels| ==> bs.levels[i] == bs.tpl
  {
    var index, at := installed, 0;
    while index != 0
      invariant at + index == installed && bs.Valid()
      invariant bs.db == WithAll(before, h, list[at..installed]) && AreNew(ProtocolsOn(before, h), list[at..installed])
      invariant old(bs.levels) <= bs.levels && forall i :: |old(bs.levels)| <= i < |bs.levels| ==> bs.levels[i] == bs.tpl
    {
      ghost var left := list[at..installed];
      AddedValues(ProtocolsOn(before, h), left, 0);
      UndoingFirst(before, h, left);
      assert left[1..] == list[at + 1..installed];
      var status := bs.UninstallProtocolInterface(h, list[at].protocol, list[at].interface);
      at, index := at + 1, index - 1;
    }
  }

  /** Nothing but the listed interfaces on `h` is different in `after`. */
  ghost predicate OnlyAdded(before: Database, after: Database, h: Handle, list: seq<Entry>) {
    && h in after
    && (forall g: Handle :: g != h ==> (g in after <==> g in before) && (g in before ==> after[g] == before[g]))
    && (forall k :: 0 <= k < |list| ==> list[k].protocol in after[h] && after[h][list[k].protocol] == list[k].interface)
    && (forall p: Guid :: (forall k :: 0 <= k < |list| ==> list[k].protocol != p) ==>
          (p in after[h] <==> p in ProtocolsOn(before, h)) && (p in after[h] ==> after[h][p] == ProtocolsOn(before, h)[p]))
  }

  lemma {:induction false} WithAllOnlyAdds(db: Database, h: Handle, list: seq<Entry>)
    requires list != [] && AreNew(ProtocolsOn(db, h), list)
    ensures OnlyAdded(db, WithAll(db, h, list), h, list)
  {
    var m := ProtocolsOn(db, h);
    forall k | 0 <= k < |list|
      ensures list[k].protocol in AddAll(m, list) && AddAll(m, list)[list[k].protocol] == list[k].interface
    {
      AddedValues(m, list, k);
    }
    forall p: Guid | forall k :: 0 <= k < |list| ==> list[k].protocol != p
      ensures (p in AddAll(m, list) <==> p in m) && (p in m ==> AddAll(m, list)[p] == m[p])
    {
      AddedKeepsOthers(m, list, p);
    }
  }

  lemma {:induction false} FitsSoFar(db: Database, handle: Option<Handle>, h: Option<Handle>, list: seq<Entry>)
    requires list == [] || (h.Some? && (if handle.Some? then h == handle && handle.value in db else h.value !in db)
                            && AreNew(ProtocolsOn(db, h.value), list))
    ensures FitsOn(db, handle, list)
  {
  }

  /** The call for entry k ended the list: the entries before it fit and were accepted, and
      its status is that of a valid call, or InvalidParameter. */
  ghost predicate EndedAt(db: Database, handle: Option<Handle>, list: seq<Entry>, answers: nat -> Status, first: nat,
                          k: nat, status: Status) {
    && k < |list| && FitsOn(db, handle, list[..k]) && !RefusesAny(answers, first, k)
    && status == if FitsOn(db, handle, list[..k + 1]) then answers(first + k) else InvalidParameter
  }

  /** The first k entries are on `h`, which is the given handle or a new one. */
  ghost predicate Installed(before: Database, handle: Option<Handle>, list: seq<Entry>, k: nat, now: Database, h: Option<Handle>)
    requires k <= |list|
  {
    if k == 0 then now == before && h == handle
    else && h.Some? && (if handle.Some? then h == handle && handle.value in before else h.value !in before)
         && now == WithAll(before, h.value, list[..k]) && AreNew(ProtocolsOn(before, h.value), list[..k])
  }

  lemma {:induction false} InstalledOneMore(before: Database, handle: Option<Handle>, list: seq<Entry>, k: nat,
                                            now: Database, h: Option<Handle>, next: Option<Handle>)
    requires k < |list| && Installed(before, handle, list, k, now, h) && CanInstall(now, h, list[k].protocol)
    requires next.Some? && if h.Some? then next == h else next.value !in now
    ensures Installed(before, handle, list, k + 1, WithProtocol(now, next.value, list[k].protocol, list[k].interface), next)
  {
    if k == 0 {
      assert list[..0] == [] && WithAll(before, next.value, []) == before;
    }
    InstallingOneMore(before, next.value, list, k);
    NewOneMore(before, next.value, list, k);
  }

  lemma {:induction false} CallFails(db: Database, handle: Option<Handle>, h: Option<Handle>, list: seq<Entry>, k: nat,
                                     now: Database, answers: nat -> Status, first: nat, status: Status)
    requires k < |list| && IsDatabase(db) && !RefusesAny(answers, first, k)
    requires Installed(db, handle, list, k, now, h)
    requires status == (if CanInstall(now, h, list[k].protocol) then answers(first + k) else InvalidParameter) && status.IsError()
    ensures EndedAt(db, handle, list, answers, first, k, status)
    ensures !FitsOn(db, handle, list) || RefusesAny(answers, first, |list|)
  {
    assert list[..k + 1][..k] == list[..k] && list[..k + 1][k] == list[k];
    FitsSoFar(db, handle, h, list[..k]);
    if CanInstall(now, h, list[k].protocol) {
      if k > 0 {
        NewOneMore(db, h.value, list, k);
      }
    } else {
      DoesNotFit(db, handle, h, list, k);
      DoesNotFit(db, handle, h, list[..k + 1], k);
    }
  }

  lemma {:induction false} AllInstalled(db: Database, handle: Option<Handle>, list: seq<Entry>, now: Database, h: Option<Handle>)
    requires Installed(db, handle, list, |list|, now, h)
    ensures FitsOn(db, handle, list)
    ensures list != [] ==> && h.Some? && (if handle.Some? then h == handle else h.value !in db)
                           && AreNew(ProtocolsOn(db, h.value), list) && OnlyAdded(db, now, h.value, list)
    ensures list == [] ==> now == db && h == handle
  {
    assert list[..|list|] == list;
    FitsSoFar(db, handle, h, list);
    if list != [] { WithAllOnlyAdds(db, h.value, list); }
  }

  lemma {:induction false} StartsInstalled(db: Database, handle: Option<Handle>, list: seq<Entry>, answers: nat -> Status, first: nat)
    ensures Installed(db, handle, list, 0, db, handle) && !RefusesAny(answers, first, 0)
  {
  }

  lemma {:induction false} CallSucceeds(now: Database, h: Option<Handle>, p: Guid, answers: nat -> Status, first: nat, k: nat, status: Status)
    requires status == (if CanInstall(now, h, p) then answers(first + k) else InvalidParameter) && !status.IsError()
    requires !RefusesAny(answers, first, k)
    ensures CanInstall(now, h, p) && !RefusesAny(answers, first, k + 1)
  {
  }

  /** The second loop, and nothing if there is nothing to undo. */
  method UndoAll(bs: BootServices, ghost handle: Option<Handle>, h: Option<Handle>, list: seq<Entry>, index: nat, ghost before: Database)
    requires bs.Valid() && IsDatabase(before) && index <= |list| && Installed(before, handle, list, index, bs.db, h)
    modifies bs`db, bs`levels
    ensures bs.Valid() && bs.db == before
    ensures old(bs.levels) <= bs.levels && forall i :: |old(bs.levels)| <= i < |bs.levels| ==> bs.levels[i] == bs.tpl
  {
    if index > 0 {
      Undo(bs, h.value, list, index, before);
    }
  }

  /** LibInstallProtocolInterfaces. All or nothing: on success every listed interface is
      on the handle and nothing else changed; on an error at any place the database and
      the handle are as before. It fails exactly when the list does not fit on the handle
      or the firmware refuses one of its calls, and returns the status of the first that
      fails. All calls are made at TPL_NOTIFY, 16, and the priority is restored. */
  method LibInstallProtocolInterfaces(bs: BootServices, handle: Option<Handle>, list: seq<Entry>)
    returns (status: Status, h: Option<Handle>)
    requires bs.Valid() && (handle.Some? ==> handle.value < bs.unused)
    modifies bs
    ensures bs.Valid() && bs.tpl == old(bs.tpl)
    ensures old(bs.levels) <= bs.levels && forall i :: |old(bs.levels)| <= i < |bs.levels| ==> bs.levels[i] == 16
    ensures status.IsError()
       <==> !FitsOn(old(bs.db), handle, list) || RefusesAny(bs.answers, old(bs.asked), |list|)
    ensures old(bs.asked) <= bs.asked
    ensures status.IsError() ==>
              && bs.db == old(bs.db) && h == handle && bs.asked > old(bs.asked)
              && EndedAt(old(bs.db), handle, list, bs.answers, old(bs.asked), bs.asked - old(bs.asked) - 1, status)
    ensures !status.IsError() ==> bs.asked == old(bs.asked) + |list|
    ensures !status.IsError() && list == [] ==> bs.db == old(bs.db) && h == handle
    ensures !status.IsError() && list != [] ==>
              && h.Some? && (if handle.Some? then h == handle else h.value !in old(bs.db))
              && AreNew(ProtocolsOn(old(bs.db), h.value), list) && OnlyAdded(old(bs.db), bs.db, h.value, list)
  {
    hide FitsOn, OnlyAdded, RefusesAny, EndedAt, Installed, WithAll, AreNew, WithProtocol, CanInstall;
    ghost var db0, asked0 := bs.db, bs.asked;
    var oldTpl := bs.RaiseTPL(TPL_NOTIFY);
    h, status := handle, Success;
    var index := 0;
    StartsInstalled(db0, handle, list, bs.answers, asked0);
    while index < |list|
      invariant 0 <= index <= |list| && bs.Valid() && (h.Some? ==> h.value < bs.unused) && !status.IsError()
      invariant bs.tpl == 16 && old(bs.levels) <= bs.levels
      invariant forall i :: |old(bs.levels)| <= i < |bs.levels| ==> bs.levels[i] == 16
      invariant bs.asked == asked0 + index && !RefusesAny(bs.answers, asked0, index)
      invariant Installed(db0, handle, list, index, bs.db, h)
    {
      ghost var before, now := h, bs.db;
      status, h := bs.InstallProtocolInterface(h, list[index].protocol, list[index].interface);
      if status.IsError() {
        CallFails(db0, handle, before, list, index, now, bs.answers, asked0, status);
        break;
      }
      CallSucceeds(now, before, list[index].protocol, bs.answers, asked0, index, status);
      InstalledOneMore(db0, handle, list, index, now, before, h);
      index := index + 1;
    }
    if status.IsError() {
      UndoAll(bs, handle, h, list, index, db0);
      h := handle;
    } else {
      AllInstalled(db0, handle, list, bs.db, h);
    }
    bs.RestoreTPL(oldTpl);
  }
}
