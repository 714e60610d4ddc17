/** The employee-name cache of `empNameCache.js`: a `Map` from employee id
    to employee name, kept in insertion order, and a flag recording whether
    it was filled from the server. */
module EmpNameCache {
  import opened Optional
  import opened JsString

  datatype Entry = Entry(empId: string, empName: string)

  /** The cache's state. `entries` is the `Map` in insertion order. */
  datatype Cache = Cache(entries: seq<Entry>, isInitialized: bool)

  /** A freshly constructed cache: empty and not initialised. */
  function New(): (c: Cache)
    ensures Valid(c) && Lookup(c) == map[] && !c.isInitialized
  {
    Cache([], false)
  }

  predicate UniqueIds(es: seq<Entry>) {
    forall i, j :: 0 <= i < j < |es| ==> es[i].empId != es[j].empId
  }

  /** Every id and name in the cache is non-empty (truthy), and ids do not
      repeat. Every operation keeps this. */
  predicate Valid(c: Cache) {
    UniqueIds(c.entries)
    && forall i :: 0 <= i < |c.entries| ==> c.entries[i].empId != "" && c.entries[i].empName != ""
  }

  /** The position of the entry for `id`, if any. */
  function Position(es: seq<Entry>, id: string): (r: Option<nat>)
    ensures r.Some? ==> r.value < |es| && es[r.value].empId == id
    ensures r.Some? ==> forall i :: 0 <= i < r.value ==> es[i].empId != id
    ensures r.None? ==> forall i :: 0 <= i < |es| ==> es[i].empId != id
  {
    if es == [] then None
    else if es[0].empId == id then Some(0)
    else match Position(es[1..], id)
      case None => None
      case Some(i) => Some(i + 1)
  }

  /** With unique ids, an entry's id finds that entry. */
  lemma PositionOfEntry(es: seq<Entry>, i: nat)
    requires UniqueIds(es) && i < |es|
    ensures Position(es, es[i].empId) == Some(i)
  {
  }

  function Ids(es: seq<Entry>): set<string> {
    set i | 0 <= i < |es| :: es[i].empId
  }

  /** The map the entries stand for: each entry sets its id to its name, in
      order. */
  function View(es: seq<Entry>): map<string, string>
    decreases |es|
  {
    if es == [] then map[] else View(es[..|es| - 1])[es[|es| - 1].empId := es[|es| - 1].empName]
  }

  /** The cache as a map, the abstract value every operation is specified
      against. */
  function Lookup(c: Cache): map<string, string> {
    View(c.entries)
  }

  /** The map's ids are the entries' ids. */
  lemma {:induction false} ViewKeys(es: seq<Entry>)
    ensures View(es).Keys == Ids(es)
    decreases |es|
  {
    if es != [] {
      var init := es[..|es| - 1];
      ViewKeys(init);
      forall k | k in Ids(es) ensures k in Ids(init) + {es[|es| - 1].empId} {
        var j :| 0 <= j < |es| && es[j].empId == k;
        if j < |es| - 1 { assert init[j] == es[j]; }
      }
      forall k | k in Ids(init) ensures k in Ids(es) {
        var j :| 0 <= j < |init| && init[j].empId == k;
        assert es[j] == init[j];
      }
    }
  }

  lemma UniquePrefix(es: seq<Entry>, n: nat)
    requires UniqueIds(es) && n <= |es|
    ensures UniqueIds(es[..n])
  {
    assert forall i :: 0 <= i < n ==> es[..n][i] == es[i];
  }

  /** With unique ids, the map gives each entry's id that entry's name. */
  lemma {:induction false} ViewAt(es: seq<Entry>, i: nat)
    requires UniqueIds(es) && i < |es|
    ensures es[i].empId in View(es) && View(es)[es[i].empId] == es[i].empName
    decreases |es|
  {
    if i < |es| - 1 {
      var init := es[..|es| - 1];
      UniquePrefix(es, |es| - 1);
      assert init[i] == es[i];
      ViewAt(init, i);
    }
  }

  /** The map of two runs of entries is the second laid over the first. */
  lemma {:induction false} ViewConcat(a: seq<Entry>, b: seq<Entry>)
    ensures View(a + b) == View(a) + View(b)
    decreases |b|
  {
    if b == [] {
      assert a + b == a;
    } else {
      var binit := b[..|b| - 1];
      assert (a + b)[..|a + b| - 1] == a + binit;
      ViewConcat(a, binit);
    }
  }

  /* ------------------------------------------------------------------ */
  /* Updating                                                            */

  /** `Map.set`: a present id keeps its place and takes the new name; a new
      id is appended. */
  function Put(es: seq<Entry>, id: string, name: string): (r: seq<Entry>)
    ensures |r| == |es| || |r| == |es| + 1
  {
    match Position(es, id)
    case Some(i) => es[i := Entry(id, name)]
    case None => es + [Entry(id, name)]
  }

  /** Replacing an entry's name in place updates the map at its id. */
  lemma {:induction false} ReplaceView(es: seq<Entry>, i: nat, e: Entry)
    requires UniqueIds(es) && i < |es| && es[i].empId == e.empId
    ensures View(es[i := e]) == View(es)[e.empId := e.empName]
    decreases |es|
  {
    var n := |es|;
    var init := es[..n - 1];
    if i == n - 1 {
      assert es[i := e][..n - 1] == init;
    } else {
      assert es[i := e][..n - 1] == init[i := e];
      UniquePrefix(es, n - 1);
      ReplaceView(init, i, e);
      assert es[n - 1].empId != e.empId;
    }
  }

  /** `Map.set` updates the map at one id and keeps the entries valid. */
  lemma PutLookup(c: Cache, id: string, name: string)
    requires Valid(c) && id != "" && name != ""
    ensures Valid(Cache(Put(c.entries, id, name), c.isInitialized))
    ensures Lookup(Cache(Put(c.entries, id, name), c.isInitialized)) == Lookup(c)[id := name]
  {
    var es := c.entries;
    match Position(es, id)
    case Some(i) =>
      ReplaceView(es, i, Entry(id, name));
    case None =>
      assert (es + [Entry(id, name)])[..|es|] == es;
  }

  /** `Map.delete`. */
  function Delete(es: seq<Entry>, id: string): (r: seq<Entry>)
    ensures |r| <= |es|
    ensures forall i :: 0 <= i < |r| ==> r[i] in es && r[i].empId != id
    decreases |es|
  {
    if es == [] then []
    else
      var rest := Delete(es[..|es| - 1], id);
      if es[|es| - 1].empId == id then rest else rest + [es[|es| - 1]]
  }

  /** Deleting removes one id from the map. */
  lemma {:induction false} DeleteView(es: seq<Entry>, id: string)
    ensures View(Delete(es, id)) == View(es) - {id}
    decreases |es|
  {
    if es != [] {
      var init := es[..|es| - 1];
      var l := es[|es| - 1];
      var rest := Delete(init, id);
      DeleteView(init, id);
      UpdateThenRemove(View(init), l.empId, l.empName, id);
      if l.empId != id {
        assert (rest + [l])[..|rest|] == rest;
      }
    }
  }

  lemma UpdateThenRemove(m: map<string, string>, k: string, v: string, id: string)
    ensures k == id ==> m[k := v] - {id} == m - {id}
    ensures k != id ==> m[k := v] - {id} == (m - {id})[k := v]
  {
  }

  /** Deleting keeps ids unique. */
  lemma {:induction false} DeleteUnique(es: seq<Entry>, id: string)
    requires UniqueIds(es)
    ensures UniqueIds(Delete(es, id))
    decreases |es|
  {
    if es != [] {
      var init := es[..|es| - 1];
      var l := es[|es| - 1];
      UniquePrefix(es, |es| - 1);
      DeleteUnique(init, id);
      if l.empId != id {
        var rest := Delete(init, id);
        var r := rest + [l];
        forall i, j | 0 <= i < j < |r| ensures r[i].empId != r[j].empId {
          if j == |rest| {
            assert r[i] == rest[i] && rest[i] in init;
            var p :| 0 <= p < |init| && init[p] == rest[i];
            assert es[p] == init[p];
          } else {
            assert r[i] == rest[i] && r[j] == rest[j];
          }
        }
      }
    }
  }

  /** `Map.delete` removes one id from the map and keeps the entries valid. */
  lemma DeleteLookup(c: Cache, id: string)
    requires Valid(c)
    ensures Valid(Cache(Delete(c.entries, id), c.isInitialized))
    ensures Lookup(Cache(Delete(c.entries, id), c.isInitialized)) == Lookup(c) - {id}
  {
    var es := c.entries;
    var r := Delete(es, id);
    DeleteUnique(es, id);
    DeleteView(es, id);
    forall i | 0 <= i < |r| ensures r[i].empId != "" && r[i].empName != "" {
      assert r[i] in es;
    }
  }

  /* ------------------------------------------------------------------ */
  /* The cache's methods                                                 */

  /** `initialize(employeeCache)`: `None` stands for a falsy or non-object
      argument, which leaves the cache as it is. Otherwise the map is
      cleared and filled, in the object's entry order, with the entries whose
      id and name are both non-empty, and the cache is marked initialised. */
  function Initialize(c: Cache, employeeCache: Option<seq<Entry>>): (r: Cache)
    ensures employeeCache.None? ==> r == c
    ensures employeeCache.Some? ==> r.isInitialized
  {
    match employeeCache
    case None => c
    case Some(es) => Cache(PutAll([], es), true)
  }

  /** The `forEach` over the object's entries. */
  function PutAll(acc: seq<Entry>, es: seq<Entry>): seq<Entry>
    decreases |es|
  {
    if es == [] then acc else PutAll(Step(acc, es[0]), es[1..])
  }

  /** One pass of the `forEach`: `set` the entry when it is truthy. */
  function Step(acc: seq<Entry>, e: Entry): seq<Entry> {
    if Truthy(e) then Put(acc, e.empId, e.empName) else acc
  }

  /** The entry as `KeepTruthy` keeps it. */
  function Kept(e: Entry): seq<Entry> {
    if Truthy(e) then [e] else []
  }

  predicate Truthy(e: Entry) {
    e.empId != "" && e.empName != ""
  }

  /** The object's entries whose id and name are both non-empty. */
  function KeepTruthy(es: seq<Entry>): (r: seq<Entry>)
    ensures forall e :: e in r <==> e in es && Truthy(e)
  {
    if es == [] then [] else Kept(es[0]) + KeepTruthy(es[1..])
  }

  /** After `initialize`, the cache holds exactly the object's entries with
      a non-empty id and name (a later entry for the same id would win, which
      a JavaScript object cannot have anyway). */
  lemma InitializeLookup(c: Cache, es: seq<Entry>)
    ensures Valid(Initialize(c, Some(es)))
    ensures Lookup(Initialize(c, Some(es))) == View(KeepTruthy(es))
  {
    PutAllLookup([], es);
    assert [] + KeepTruthy(es) == KeepTruthy(es);
  }

  lemma {:induction false} PutAllLookup(acc: seq<Entry>, es: seq<Entry>)
    requires Valid(Cache(acc, true))
    ensures Valid(Cache(PutAll(acc, es), true))
    ensures View(PutAll(acc, es)) == View(acc + KeepTruthy(es))
    decreases |es|
  {
    if es == [] {
      assert acc + [] == acc;
    } else {
      var e := es[0];
      StepLookup(acc, e);
      PutAllLookup(Step(acc, e), es[1..]);
      assert PutAll(acc, es) == PutAll(Step(acc, e), es[1..]);
      ViewChain(acc, e, KeepTruthy(es[1..]), PutAll(acc, es), KeepTruthy(es));
    }
  }

  lemma ViewChain(acc: seq<Entry>, e: Entry, rest: seq<Entry>, out: seq<Entry>, kept: seq<Entry>)
    requires View(out) == View(Step(acc, e) + rest)
    requires View(Step(acc, e)) == View(acc + Kept(e))
    requires kept == Kept(e) + rest
    ensures View(out) == View(acc + kept)
  {
    SameViewAppend(Step(acc, e), acc + Kept(e), rest);
    Assoc(acc, Kept(e), rest);
  }

  lemma Assoc(a: seq<Entry>, b: seq<Entry>, c: seq<Entry>)
    ensures a + (b + c) == a + b + c
  {
  }

  /** One pass of the `forEach` sets the map as appending the kept entry
      would. */
  lemma StepLookup(acc: seq<Entry>, e: Entry)
    requires Valid(Cache(acc, true))
    ensures Valid(Cache(Step(acc, e), true)) && View(Step(acc, e)) == View(acc + Kept(e))
  {
    if Truthy(e) {
      PutLookup(Cache(acc, true), e.empId, e.empName);
      assert (acc + [e])[..|acc|] == acc;
    } else {
      assert acc + [] == acc;
    }
  }

  lemma SameViewAppend(x: seq<Entry>, y: seq<Entry>, z: seq<Entry>)
    requires View(x) == View(y)
    ensures View(x + z) == View(y + z)
  {
    ViewConcat(x, z);
    ViewConcat(y, z);
  }

  /** `getEmpName(empId)`: "" for an empty id, otherwise the cached name, or
      the id itself when it is not cached. */
  function GetEmpName(c: Cache, empId: string): (r: string)
    requires Valid(c)
    ensures empId == "" ==> r == ""
    ensures empId != "" && empId in Lookup(c) ==> r == Lookup(c)[empId]
    ensures empId != "" && empId !in Lookup(c) ==> r == empId
    ensures empId != "" ==> r != ""
  {
    if empId == "" then ""
    else match Position(c.entries, empId)
      case Some(i) =>
        ViewAt(c.entries, i);
        c.entries[i].empName
      case None =>
        ViewKeys(c.entries);
        empId
  }

  /** Reading a name after `setEmpInfo`: the new name for that id, the old
      answer for every other id. */
  lemma GetEmpNameAfterSet(c: Cache, empId: string, empName: string, other: string)
    requires Valid(c) && empId != "" && empName != ""
    ensures SetRemoveValid(c, empId, empName)
    ensures GetEmpName(SetEmpInfo(c, empId, empName), other) ==
      if other == empId then empName else GetEmpName(c, other)
  {
    SetRemoveLookup(c, empId, empName);
  }

  /** Reading a name after `removeEmpInfo`: the id itself for that id, the
      old answer for every other id. */
  lemma GetEmpNameAfterRemove(c: Cache, empId: string, other: string)
    requires Valid(c) && empId != ""
    ensures SetRemoveValid(c, empId, "")
    ensures GetEmpName(RemoveEmpInfo(c, empId), other) ==
      if other == empId then empId else GetEmpName(c, other)
  {
    SetRemoveLookup(c, empId, "");
  }

  predicate SetRemoveValid(c: Cache, empId: string, empName: string) {
    Valid(SetEmpInfo(c, empId, empName)) && Valid(RemoveEmpInfo(c, empId))
  }

  /** `getEmpId(empName)`: the id of the first entry in insertion order with
      exactly this name, or "". */
  function GetEmpId(c: Cache, empName: string): (r: string)
    requires Valid(c)
    ensures empName == "" ==> r == ""
    ensures r != "" ==> r in Lookup(c) && Lookup(c)[r] == empName
    ensures r == "" && empName != "" ==> forall id :: id in Lookup(c) ==> Lookup(c)[id] != empName
    ensures r != "" ==> forall i :: 0 <= i < |c.entries| && c.entries[i].empId == r ==>
      forall j :: 0 <= j < i ==> c.entries[j].empName != empName
  {
    if empName == "" then ""
    else
      var r := FirstNamed(c.entries, empName);
      match r
      case Some(i) =>
        ViewAt(c.entries, i);
        c.entries[i].empId
      case None =>
        ViewKeys(c.entries);
        forall id | id in Lookup(c) ensures Lookup(c)[id] != empName {
          var j :| 0 <= j < |c.entries| && c.entries[j].empId == id;
          ViewAt(c.entries, j);
        }
        ""
  }

  /** The position of the first entry named `name`. */
  function FirstNamed(es: seq<Entry>, name: string): (r: Option<nat>)
    ensures r.Some? ==> r.value < |es| && es[r.value].empName == name
    ensures r.Some? ==> forall i :: 0 <= i < r.value ==> es[i].empName != name
    ensures r.None? ==> forall i :: 0 <= i < |es| ==> es[i].empName != name
  {
    if es == [] then None
    else if es[0].empName == name then Some(0)
    else match FirstNamed(es[1..], name)
      case None => None
      case Some(i) => Some(i + 1)
  }

  /** `setEmpInfo(empId, empName)`: only when both are non-empty. */
  function SetEmpInfo(c: Cache, empId: string, empName: string): (r: Cache)
    ensures r.isInitialized == c.isInitialized
    ensures empId == "" || empName == "" ==> r == c
  {
    if empId != "" && empName != "" then Cache(Put(c.entries, empId, empName), c.isInitialized) else c
  }

  /** `removeEmpInfo(empId)`: only when the id is non-empty. */
  function RemoveEmpInfo(c: Cache, empId: string): (r: Cache)
    ensures r.isInitialized == c.isInitialized
    ensures empId == "" ==> r == c
  {
    if empId != "" then Cache(Delete(c.entries, empId), c.isInitialized) else c
  }

  /** `setEmpInfo` and `removeEmpInfo` change the map at the given id only. */
  lemma SetRemoveLookup(c: Cache, empId: string, empName: string)
    requires Valid(c)
    ensures SetRemoveValid(c, empId, empName)
    ensures empId != "" && empName != "" ==> Lookup(SetEmpInfo(c, empId, empName)) == Lookup(c)[empId := empName]
    ensures empId != "" ==> Lookup(RemoveEmpInfo(c, empId)) == Lookup(c) - {empId}
  {
    if empId != "" {
      DeleteLookup(c, empId);
      if empName != "" {
        PutLookup(c, empId, empName);
      }
    }
  }

  /** `getSize()`, which is also `getStatus().size`: the number of entries. */
  function GetSize(c: Cache): (n: nat)
    requires Valid(c)
    ensures n == |Lookup(c)|
  {
    IdsCount(c.entries);
    ViewKeys(c.entries);
    |c.entries|
  }

  /** With unique ids there are as many ids as entries. */
  lemma {:induction false} IdsCount(es: seq<Entry>)
    requires UniqueIds(es)
    ensures |Ids(es)| == |es|
    decreases |es|
  {
    if es != [] {
      var init := es[..|es| - 1];
      UniquePrefix(es, |es| - 1);
      IdsCount(init);
      assert Ids(es) == Ids(init) + {es[|es| - 1].empId} by {
        forall k | k in Ids(es) ensures k in Ids(init) + {es[|es| - 1].empId} {
          var j :| 0 <= j < |es| && es[j].empId == k;
          if j < |es| - 1 { assert init[j] == es[j]; }
        }
        forall k | k in Ids(init) ensures k in Ids(es) {
          var j :| 0 <= j < |init| && init[j].empId == k;
          assert es[j] == init[j];
        }
      }
      assert es[|es| - 1].empId !in Ids(init);
    }
  }

  /** `clear()`: no entries, not initialised. */
  function Clear(c: Cache): (r: Cache)
    ensures Valid(r) && Lookup(r) == map[] && !r.isInitialized
  {
    Cache([], false)
  }

  /** `searchByName(searchTerm)`: [] for an empty term, otherwise the
      entries whose name contains the term, in insertion order. */
  function SearchByName(c: Cache, searchTerm: string): (r: seq<Entry>)
    ensures searchTerm == "" ==> r == []
    ensures searchTerm != "" ==> forall e :: e in r <==> e in c.entries && Includes(e.empName, searchTerm)
  {
    if searchTerm == "" then [] else Matching(c.entries, searchTerm)
  }

  function Matching(es: seq<Entry>, term: string): (r: seq<Entry>)
    ensures |r| <= |es|
    ensures forall e :: e in r <==> e in es && Includes(e.empName, term)
  {
    if es == [] then []
    else (if Includes(es[0].empName, term) then [es[0]] else []) + Matching(es[1..], term)
  }

  /** The scan keeps the Map's insertion order: an entry appended to the
      list is appended to the result exactly when its name contains the
      term. */
  lemma {:induction false} MatchingAppend(es: seq<Entry>, e: Entry, term: string)
    ensures Matching(es + [e], term) == Matching(es, term) + (if Includes(e.empName, term) then [e] else [])
    decreases |es|
  {
    if es != [] {
      assert (es + [e])[1..] == es[1..] + [e];
      MatchingAppend(es[1..], e, term);
    }
  }

  /** `searchByName` answers in the Map's order: an entry added last is
      reported last, exactly when its name contains a non-empty term. */
  lemma SearchByNameAppend(c: Cache, e: Entry, searchTerm: string)
    requires searchTerm != ""
    ensures SearchByName(c.(entries := c.entries + [e]), searchTerm)
         == SearchByName(c, searchTerm) + (if Includes(e.empName, searchTerm) then [e] else [])
  {
    MatchingAppend(c.entries, e, searchTerm);
  }

  datatype Status = Status(isInitialized: bool, size: nat, hasData: bool)

  /** `getStatus()`: there is data exactly when the map is not empty. */
  function GetStatus(c: Cache): (s: Status)
    requires Valid(c)
    ensures s.isInitialized == c.isInitialized && s.size == |Lookup(c)|
    ensures s.hasData <==> Lookup(c) != map[]
  {
    var n := GetSize(c);
    Status(c.isInitialized, n, n > 0)
  }
}
