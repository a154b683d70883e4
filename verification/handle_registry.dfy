/**
 The registry of resources by handle (server/registry.hh:35-134).  A resource is its pointer as a 64-bit
 word; the creator is a parameter of each call, and every call of the deleter is recorded.
 */
module HandleRegistries {
  import opened Wrappers
  import opened Utf8
  import opened HandleCodes

  datatype RegistryError = NoSuchHandle(handle: word) | Duplicate(handle: word) | BadCode(error: CodeError)

  /**
   The map, with the resources the creator has returned and those the deleter was called on, so far.
   `stale` are the registered resources that the deleter has been called on since they were registered,
   and `twice` records every further call on one of them.
   */
  datatype State = State(
    entries: map<word, word>,
    created: multiset<word>,
    deleted: multiset<word>,
    stale: set<word>,
    twice: multiset<word>)

  const EMPTY: State := State(map[], multiset{}, multiset{}, {}, multiset{})

  /** Calls of the registry, each with what the creator returns for it. */
  datatype Op = Emplace(resource: word) | Erase(handle: word) | Clear

  /** The registered resources. */
  function Live(m: map<word, word>): multiset<word> {
    multiset(m.Values)
  }

  /** The deleter is called on a registered resource. */
  function Delete(s: State, r: word): State {
    s.(deleted := s.deleted + multiset{r}, stale := s.stale + {r},
       twice := s.twice + if r in s.stale then multiset{r} else multiset{})
  }

  /** A failing call changes nothing, except that a duplicate is deleted again. */
  function Step(realm: word, s: State, op: Op): State {
    match op
    case Emplace(r) =>
      var id := Joggled(realm, r);
      var n := s.(created := s.created + multiset{r});
      if id in s.entries then Delete(n, r) else n.(entries := s.entries[id := r])
    case Erase(h) =>
      if h in s.entries then
        var r := s.entries[h];
        Delete(s, r).(entries := s.entries - {h}, stale := s.stale - {r})
      else s
    case Clear => s.(deleted := s.deleted + Live(s.entries), stale := s.entries.Values, twice := s.twice + multiset(s.stale))
  }

  function Run(realm: word, s: State, ops: seq<Op>): State
    decreases ops
  {
    if ops == [] then s else Run(realm, Step(realm, s, ops[0]), ops[1..])
  }

  /** Every entry is filed under the joggled word of its resource. */
  ghost predicate IsKeyed(realm: word, s: State) {
    forall h :: h in s.entries ==> h == Joggled(realm, s.entries[h])
  }

  lemma {:induction false} RunIsKeyed(realm: word, s: State, ops: seq<Op>)
    requires IsKeyed(realm, s)
    ensures IsKeyed(realm, Run(realm, s, ops))
    decreases ops
  {
    if ops != [] {
      RunIsKeyed(realm, Step(realm, s, ops[0]), ops[1..]);
    }
  }

  /** No two handles share a resource. */
  lemma LiveResourcesDiffer(realm: word, s: State, h: word, h': word)
    requires IsKeyed(realm, s) && h in s.entries && h' in s.entries
    ensures s.entries[h] == s.entries[h'] <==> h == h'
  {
  }

  lemma ValuesAfterErase(realm: word, s: State, h: word)
    requires IsKeyed(realm, s) && h in s.entries
    ensures (s.entries - {h}).Values == s.entries.Values - {s.entries[h]}
  {
    var m, r := s.entries - {h}, s.entries[h];
    forall v | v in s.entries.Values - {r} ensures v in m.Values {
      var k :| k in s.entries && s.entries[k] == v;
      assert m[k] == v;
    }
    forall v | v in m.Values ensures v in s.entries.Values - {r} {
      var k :| k in m && m[k] == v;
      LiveResourcesDiffer(realm, s, k, h);
    }
  }

  lemma ValuesAfterAdd(m: map<word, word>, id: word, r: word)
    requires id !in m
    ensures m[id := r].Values == m.Values + {r}
  {
    var m' := m[id := r];
    assert m'[id] == r;
    forall v | v in m.Values ensures v in m'.Values {
      var h :| h in m && m[h] == v;
      assert m'[h] == v;
    }
  }

  /** Only registered resources are stale. */
  lemma KeepsStale(realm: word, s: State, op: Op)
    requires IsKeyed(realm, s) && s.stale <= s.entries.Values
    ensures Step(realm, s, op).stale <= Step(realm, s, op).entries.Values
  {
    match op
    case Emplace(r) =>
      if Joggled(realm, r) in s.entries {
        LiveIffKeyed(realm, s, r);
      } else {
        ValuesAfterAdd(s.entries, Joggled(realm, r), r);
      }
    case Erase(h) => if h in s.entries { ValuesAfterErase(realm, s, h); }
    case Clear =>
  }

  /** The deleter is called once on each of the resources `rs`. */
  ghost function DeleteEach(s: State, rs: set<word>): State {
    s.(deleted := s.deleted + multiset(rs), stale := s.stale + rs, twice := s.twice + multiset(s.stale * rs))
  }

  lemma DeleteOneMore(s: State, rs: set<word>, r: word)
    requires r !in rs
    ensures Delete(DeleteEach(s, rs), r) == DeleteEach(s, rs + {r})
  {
    assert multiset(rs + {r}) == multiset(rs) + multiset{r};
    if r in s.stale {
      assert s.stale * (rs + {r}) == s.stale * rs + {r};
    } else {
      assert s.stale * (rs + {r}) == s.stale * rs;
    }
    assert s.stale + (rs + {r}) == s.stale + rs + {r};
  }

  lemma DeleteEachIsClear(realm: word, s: State, left: set<word>)
    requires s.stale <= s.entries.Values && left == {}
    ensures DeleteEach(s, (s.entries - left).Values) == Step(realm, s, Clear)
    ensures Step(realm, s, Clear).stale == s.entries.Values
  {
    assert s.entries - left == s.entries;
    assert s.stale * s.entries.Values == s.stale && s.stale + s.entries.Values == s.entries.Values;
  }

  /** Visiting one more entry meets a resource that was not met before. */
  lemma ValuesAfterVisit(realm: word, s: State, left: set<word>, h: word)
    requires IsKeyed(realm, s) && h in left && left <= s.entries.Keys
    ensures s.entries[h] !in (s.entries - left).Values
    ensures (s.entries - (left - {h})).Values == (s.entries - left).Values + {s.entries[h]}
  {
    var m, n, r := s.entries - left, s.entries - (left - {h}), s.entries[h];
    assert n == m[h := r];
    assert forall k :: k in m ==> m[k] != r;
    ValuesAfterAdd(m, h, r);
  }

  lemma VisitOne(realm: word, s: State, left: set<word>, h: word)
    requires IsKeyed(realm, s) && h in left && left <= s.entries.Keys
    ensures Delete(DeleteEach(s, (s.entries - left).Values), s.entries[h]) == DeleteEach(s, (s.entries - (left - {h})).Values)
  {
    ValuesAfterVisit(realm, s, left, h);
    DeleteOneMore(s, (s.entries - left).Values, s.entries[h]);
  }

  lemma VisitNone(s: State)
    ensures DeleteEach(s, (s.entries - s.entries.Keys).Values) == s
  {
    assert s.entries - s.entries.Keys == map[];
    assert s.stale + {} == s.stale && s.stale * {} == {};
  }

  // The program

  class Registry {
    const identifier: word
    var entries: map<word, word>
    ghost var created: multiset<word>
    ghost var deleted: multiset<word>
    ghost var stale: set<word>
    ghost var twice: multiset<word>

    ghost function Contents(): State
      reads this
    {
      State(entries, created, deleted, stale, twice)
    }

    ghost predicate Valid()
      reads this
    {
      IsKeyed(identifier, Contents()) && stale <= entries.Values
    }

    /** A call of the deleter on a registered resource. */
    ghost method CallDeleter(r: word)
      modifies `deleted, `stale, `twice
      ensures Contents() == Delete(old(Contents()), r)
    {
      deleted := deleted + multiset{r};
      twice := twice + if r in stale then multiset{r} else multiset{};
      stale := stale + {r};
    }

    constructor (identifier: word)
      ensures Valid() && Contents() == EMPTY && this.identifier == identifier
    {
      this.identifier, entries, created, deleted, stale, twice := identifier, map[], multiset{}, multiset{}, {}, multiset{};
    }

    /** `emplace`, for a creator that returns `resource`. */
    method Emplace(resource: word) returns (r: Result<word, RegistryError>)
      requires Valid()
      modifies this
      ensures Valid() && Contents() == Step(identifier, old(Contents()), Op.Emplace(resource))
      ensures r.Ok? <==> resource !in old(entries).Values
      ensures r.Ok? ==> r.value !in old(entries) && entries == old(entries)[r.value := resource]
      ensures r.Err? ==> r.error == Duplicate(Joggled(identifier, resource)) && entries == old(entries)
    {
      created := created + multiset{resource};
      var id := Joggle(identifier, resource);
      LiveIffKeyed(identifier, Contents(), resource);
      KeepsStale(identifier, old(Contents()), Op.Emplace(resource));
      if id in entries {
        CallDeleter(resource);
        return Err(Duplicate(id));
      }
      entries := entries[id := resource];
      return Ok(id);
    }

    method Get(handle: word) returns (r: Result<word, RegistryError>)
      ensures r == if handle in entries then Ok(entries[handle]) else Err(NoSuchHandle(handle))
    {
      if handle !in entries {
        return Err(NoSuchHandle(handle));
      }
      return Ok(entries[handle]);
    }

    /** `get` for a handle in its text form. */
    method GetByCode(code: seq<byte>) returns (r: Result<word, RegistryError>)
      ensures r.Err? && r.error.BadCode? <==> !(|code| == 11 && AllLetters(code))
      ensures |code| == 11 && AllLetters(code) ==>
                var h := Mod(Value(code));
                r == if h in entries then Ok(entries[h]) else Err(NoSuchHandle(h))
    {
      var handle := Unbase57(code);
      if handle.Err? {
        return Err(BadCode(handle.error));
      }
      r := Get(handle.value);
    }

    method Erase(handle: word) returns (r: Result<(), RegistryError>)
      requires Valid()
      modifies this
      ensures Valid() && Contents() == Step(identifier, old(Contents()), Op.Erase(handle))
      ensures r == if handle in old(entries) then Ok(()) else Err(NoSuchHandle(handle))
    {
      if handle !in entries {
        return Err(NoSuchHandle(handle));
      }
      KeepsStale(identifier, Contents(), Op.Erase(handle));
      CallDeleter(entries[handle]);
      stale := stale - {entries[handle]};
      entries := entries - {handle};
      return Ok(());
    }

    /** One round of the loop of `clear`, which has come to the entry `h` of those that are left. */
    ghost method VisitEntry(before: State, left: set<word>, h: word)
      requires IsKeyed(identifier, before) && h in left && left <= before.entries.Keys
      requires Contents() == DeleteEach(before, (before.entries - left).Values)
      modifies `deleted, `stale, `twice
      ensures Contents() == DeleteEach(before, (before.entries - (left - {h})).Values)
    {
      VisitOne(identifier, before, left, h);
      CallDeleter(entries[h]);
    }

    /** `clear`, also run by the destructor: calls the deleter on every entry, in any order, and leaves the map as it is. */
    method Clear()
      requires Valid()
      modifies `deleted, `stale, `twice
      ensures Valid() && Contents() == Step(identifier, old(Contents()), Op.Clear)
    {
      ghost var before := Contents();
      var left := entries.Keys;
      VisitNone(before);
      while left != {}
        invariant left <= entries.Keys
        invariant Contents() == DeleteEach(before, (before.entries - left).Values)
      {
        var h :| h in left;
        VisitEntry(before, left, h);
        left := left - {h};
      }
      DeleteEachIsClear(identifier, before, left);
    }
  }

  // What it guarantees

  /** A resource is live exactly if its joggled word is in use as a handle. */
  lemma LiveIffKeyed(realm: word, s: State, resource: word)
    requires IsKeyed(realm, s)
    ensures resource in s.entries.Values <==> Joggled(realm, resource) in s.entries
  {
    if Joggled(realm, resource) in s.entries {
      JoggleIsInjective(realm, resource, s.entries[Joggled(realm, resource)]);
    }
  }

  /** In every reachable registry the text form of a handle finds exactly the resource that was registered under it. */
  lemma CodeFindsResource(realm: word, ops: seq<Op>, resource: word)
    ensures var s, id := Run(realm, EMPTY, ops), Joggled(realm, resource);
            var code := Digits(id, 11);
            && |code| == 11 && AllLetters(code) && Mod(Value(code)) == id
            && (resource in s.entries.Values <==> id in s.entries)
            && (id in s.entries ==> s.entries[id] == resource)
  {
    var s, id := Run(realm, EMPTY, ops), Joggled(realm, resource);
    Unbase57Inverts(id);
    RunIsKeyed(realm, EMPTY, ops);
    LiveIffKeyed(realm, s, resource);
    if id in s.entries {
      JoggleIsInjective(realm, resource, s.entries[id]);
    }
  }

  lemma LiveAfterAdd(realm: word, s: State, r: word)
    requires IsKeyed(realm, s) && Joggled(realm, r) !in s.entries
    ensures Live(s.entries[Joggled(realm, r) := r]) == Live(s.entries) + multiset{r}
  {
    LiveIffKeyed(realm, s, r);
    ValuesAfterAdd(s.entries, Joggled(realm, r), r);
  }

  lemma LiveAfterErase(realm: word, s: State, h: word)
    requires IsKeyed(realm, s) && h in s.entries
    ensures Live(s.entries) == Live(s.entries - {h}) + multiset{s.entries[h]}
  {
    ValuesAfterErase(realm, s, h);
  }

  /** The resources that explicit calls of `clear` delete although they stay registered. */
  function ClearedEarly(realm: word, s: State, ops: seq<Op>): multiset<word>
    decreases ops
  {
    if ops == [] then multiset{}
    else (if ops[0].Clear? then Live(s.entries) else multiset{}) + ClearedEarly(realm, Step(realm, s, ops[0]), ops[1..])
  }

  lemma StepConserves(realm: word, s: State, op: Op)
    requires IsKeyed(realm, s)
    ensures var n := Step(realm, s, op);
            n.deleted + Live(n.entries) + s.created
            == s.deleted + Live(s.entries) + n.created + if op.Clear? then Live(s.entries) else multiset{}
  {
    match op
    case Emplace(r) => if Joggled(realm, r) !in s.entries { LiveAfterAdd(realm, s, r); }
    case Erase(h) => if h in s.entries { LiveAfterErase(realm, s, h); }
    case Clear =>
  }

  lemma Chain(s: State, n: State, t: State, x: multiset<word>, y: multiset<word>)
    requires n.deleted + Live(n.entries) + s.created == s.deleted + Live(s.entries) + n.created + x
    requires t.deleted + Live(t.entries) + n.created == n.deleted + Live(n.entries) + t.created + y
    ensures t.deleted + Live(t.entries) + s.created == s.deleted + Live(s.entries) + t.created + (x + y)
  {
    var ls, ln, lt := Live(s.entries), Live(n.entries), Live(t.entries);
    forall r: word
      ensures (t.deleted + lt + s.created)[r] == (s.deleted + ls + t.created + (x + y))[r]
    {
      assert (n.deleted + ln + s.created)[r] == (s.deleted + ls + n.created + x)[r];
      assert (t.deleted + lt + n.created)[r] == (n.deleted + ln + t.created + y)[r];
    }
  }

  /** Conservation, over every run: what was deleted and what is live are what was created and what was cleared early. */
  lemma {:induction false} Conservation(realm: word, s: State, ops: seq<Op>)
    requires IsKeyed(realm, s)
    ensures var s' := Run(realm, s, ops);
            s'.deleted + Live(s'.entries) + s.created == s.deleted + Live(s.entries) + s'.created + ClearedEarly(realm, s, ops)
    decreases ops
  {
    if ops != [] {
      var n := Step(realm, s, ops[0]);
      StepConserves(realm, s, ops[0]);
      RunIsKeyed(realm, s, [ops[0]]);
      Conservation(realm, n, ops[1..]);
      Chain(s, n, Run(realm, n, ops[1..]), if ops[0].Clear? then Live(s.entries) else multiset{}, ClearedEarly(realm, n, ops[1..]));
    }
  }

  /**
   Once the destructor has run, the deleter has been called as often on each resource as the creator
   returned it, exactly if `clear` was never called on a registry with entries.
   */
  lemma DeletedAsOftenIff(realm: word, ops: seq<Op>)
    ensures var s := Run(realm, EMPTY, ops);
            Step(realm, s, Clear).deleted == s.created <==> ClearedEarly(realm, EMPTY, ops) == multiset{}
  {
    Conservation(realm, EMPTY, ops);
    assert Live(EMPTY.entries) == multiset{};
    var s := Run(realm, EMPTY, ops);
    var c := ClearedEarly(realm, EMPTY, ops);
    assert s.deleted + Live(s.entries) == s.created + c by {
      assert s.deleted + Live(s.entries) + EMPTY.created == s.deleted + Live(s.entries);
      assert EMPTY.deleted + Live(EMPTY.entries) + s.created == s.created;
    }
    if s.created + c == s.created {
      forall r ensures c[r] == 0 {
        assert (s.created + c)[r] == s.created[r] + c[r];
      }
    }
  }

  // Deleted exactly once

  /** The calls that delete a resource and keep it: the creator returns one that is registered, or `clear` meets an entry. */
  predicate Misuses(s: State, op: Op) {
    match op
    case Emplace(r) => r in s.entries.Values
    case Erase(_) => false
    case Clear => s.entries != map[]
  }

  ghost predicate MisusedIn(realm: word, s: State, ops: seq<Op>)
    decreases ops
  {
    ops != [] && (Misuses(s, ops[0]) || MisusedIn(realm, Step(realm, s, ops[0]), ops[1..]))
  }

  predicate IsClean(s: State) {
    s.stale == {} && s.twice == multiset{}
  }

  lemma StepIsClean(realm: word, s: State, op: Op)
    requires IsKeyed(realm, s) && s.stale <= s.entries.Values
    ensures IsClean(Step(realm, s, op)) <==> IsClean(s) && !Misuses(s, op)
  {
    match op
    case Emplace(r) => LiveIffKeyed(realm, s, r);
    case Erase(h) =>
      if h in s.entries {
        var r, n := s.entries[h], Step(realm, s, op);
        if r in s.stale { assert r in n.twice; }
        if s.twice != multiset{} {
          var v :| v in s.twice;
          assert v in n.twice;
        }
        if n.stale == {} && r !in s.stale { assert s.stale == {}; }
      }
    case Clear =>
      var n := Step(realm, s, op);
      if s.entries != map[] {
        var h :| h in s.entries;
        assert s.entries[h] in n.stale;
      }
      if s.twice != multiset{} {
        var v :| v in s.twice;
        assert v in n.twice;
      }
  }

  lemma {:induction false} RunIsClean(realm: word, s: State, ops: seq<Op>)
    requires IsKeyed(realm, s) && s.stale <= s.entries.Values
    ensures var n := Run(realm, s, ops);
            && IsKeyed(realm, n) && n.stale <= n.entries.Values
            && (IsClean(n) <==> IsClean(s) && !MisusedIn(realm, s, ops))
    decreases ops
  {
    if ops != [] {
      KeepsStale(realm, s, ops[0]);
      StepIsClean(realm, s, ops[0]);
      RunIsKeyed(realm, s, [ops[0]]);
      RunIsClean(realm, Step(realm, s, ops[0]), ops[1..]);
    }
  }

  /**
   In every reachable registry, no registered resource has been deleted and none was deleted twice, exactly
   if the creator never returned a registered resource and `clear` never met an entry.
   */
  lemma CleanIff(realm: word, ops: seq<Op>)
    ensures IsClean(Run(realm, EMPTY, ops)) <==> !MisusedIn(realm, EMPTY, ops)
  {
    RunIsClean(realm, EMPTY, ops);
  }

  /** Every misuse is paid for: once the destructor has run, some resource has been deleted twice for one registration. */
  lemma NeverDeletedTwiceIff(realm: word, ops: seq<Op>)
    ensures Step(realm, Run(realm, EMPTY, ops), Clear).twice == multiset{} <==> !MisusedIn(realm, EMPTY, ops)
  {
    var s := Run(realm, EMPTY, ops);
    RunIsClean(realm, EMPTY, ops);
    var t := s.twice + multiset(s.stale);
    if s.twice != multiset{} {
      var v :| v in s.twice;
      assert v in t;
    }
    if s.stale != {} {
      var v :| v in s.stale;
      assert v in t;
    }
  }

  lemma {:induction false} UnmisusedClearsNothingEarly(realm: word, s: State, ops: seq<Op>)
    requires !MisusedIn(realm, s, ops)
    ensures ClearedEarly(realm, s, ops) == multiset{}
    decreases ops
  {
    if ops != [] {
      UnmisusedClearsNothingEarly(realm, Step(realm, s, ops[0]), ops[1..]);
      assert Live(map[]) == multiset{};
    }
  }

  /**
   Every resource is deleted exactly once by `erase` or the destructor, as often as it was created and never
   twice for one registration, exactly if nothing was misused.
   */
  lemma DeletedOnceIff(realm: word, ops: seq<Op>)
    ensures var s := Run(realm, EMPTY, ops);
            var n := Step(realm, s, Clear);
            n.deleted == n.created && n.twice == multiset{} <==> !MisusedIn(realm, EMPTY, ops)
  {
    NeverDeletedTwiceIff(realm, ops);
    if !MisusedIn(realm, EMPTY, ops) {
      UnmisusedClearsNothingEarly(realm, EMPTY, ops);
      DeletedAsOftenIff(realm, ops);
    }
  }

  /** The creator returns only resources that are not registered, and `clear` is left to the destructor. */
  ghost predicate CreatesFresh(realm: word, s: State, ops: seq<Op>)
    decreases ops
  {
    ops == [] ||
    (&& !ops[0].Clear?
     && (ops[0].Emplace? ==> ops[0].resource !in s.entries.Values)
     && CreatesFresh(realm, Step(realm, s, ops[0]), ops[1..]))
  }

  lemma {:induction false} FreshIsNoMisuse(realm: word, s: State, ops: seq<Op>)
    requires CreatesFresh(realm, s, ops)
    ensures !MisusedIn(realm, s, ops)
    decreases ops
  {
    if ops != [] {
      FreshIsNoMisuse(realm, Step(realm, s, ops[0]), ops[1..]);
    }
  }

  /** So a creator of fresh resources has each of them deleted exactly once. */
  lemma FreshDeletedOnce(realm: word, ops: seq<Op>)
    requires CreatesFresh(realm, EMPTY, ops)
    ensures var n := Step(realm, Run(realm, EMPTY, ops), Clear);
            n.deleted == n.created && n.twice == multiset{}
  {
    FreshIsNoMisuse(realm, EMPTY, ops);
    DeletedOnceIff(realm, ops);
  }

  /** A resource that is created twice is deleted while it stays registered, and again by the destructor. */
  lemma SampleDuplicate(realm: word, r: word)
    ensures var s := Run(realm, EMPTY, [Emplace(r), Emplace(r)]);
            s.entries == map[Joggled(realm, r) := r] && s.stale == {r} && r in Step(realm, s, Clear).twice
  {
    RunOfTwo(realm, Emplace(r), Emplace(r));
  }

  /** A resource that is cleared is deleted again by the destructor: twice, although it was created once. */
  lemma SampleClear(realm: word, r: word)
    ensures var n := Step(realm, Run(realm, EMPTY, [Emplace(r), Clear]), Clear);
            n.created == multiset{r} && n.deleted == multiset{r, r} && r in n.twice
  {
    RunOfTwo(realm, Emplace(r), Clear);
    var m := map[Joggled(realm, r) := r];
    assert m.Values == {r} && EMPTY.entries[Joggled(realm, r) := r] == m;
  }

  lemma RunOfTwo(realm: word, a: Op, b: Op)
    ensures Run(realm, EMPTY, [a, b]) == Step(realm, Step(realm, EMPTY, a), b)
  {
    assert [a, b][1..] == [b] && [b][1..] == [];
    assert Run(realm, Step(realm, EMPTY, a), [b]) == Run(realm, Step(realm, Step(realm, EMPTY, a), b), []);
  }
}
