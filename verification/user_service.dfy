/** The in-memory user registry: an ordered list of users and the next id to hand out.
    The Java service mutates one list and one counter; here each operation takes the registry
    state and returns the new state alongside its answer. */
module UserService {
  import opened Wrappers
  import opened UserModel

  datatype Registry = Registry(users: seq<User>, nextId: int)

  /** Every stored user has an id, so `getId().equals(...)` never dereferences null. */
  predicate IdsAssigned(us: seq<User>) {
    forall i :: 0 <= i < |us| ==> us[i].id.Some?
  }

  predicate DistinctIds(us: seq<User>) {
    forall i, j :: 0 <= i < j < |us| ==> us[i].id != us[j].id
  }

  /** The registry invariant: ids are assigned, pairwise distinct, at least 1 and below the counter. */
  predicate Valid(r: Registry) {
    && 1 <= r.nextId
    && IdsAssigned(r.users)
    && DistinctIds(r.users)
    && (forall i :: 0 <= i < |r.users| ==> 1 <= r.users[i].id.value < r.nextId)
  }

  predicate HasId(us: seq<User>, id: int) {
    exists i :: 0 <= i < |us| && us[i].id == Some(id)
  }

  /** `createUser`: the counter's current value becomes the user's id, the user goes to the end of
      the list and the counter moves on by one. */
  function Create(r: Registry, u: User): (res: (Registry, User))
    ensures res.1 == WithId(u, Some(r.nextId))
    ensures res.0.users == r.users + [res.1]
    ensures res.0.nextId == r.nextId + 1
    ensures Valid(r) ==> Valid(res.0)
  {
    var stored := WithId(u, Some(r.nextId));
    (Registry(r.users + [stored], r.nextId + 1), stored)
  }

  /** The constructor: an empty list and a counter at 1, then two seed users created in turn. */
  function Seeded(): (r: Registry)
    ensures Valid(r)
    ensures r.nextId == 3
    ensures r.users == [User(Some(1), Some("John Doe"), Some("john.doe@example.com")),
                        User(Some(2), Some("Jane Smith"), Some("jane.smith@example.com"))]
  {
    var empty := Registry([], 1);
    var first := Create(empty, User(None, Some("John Doe"), Some("john.doe@example.com"))).0;
    Create(first, User(None, Some("Jane Smith"), Some("jane.smith@example.com"))).0
  }

  /** `getAllUsers`: a copy of the list, in insertion order. In a valid registry every listed user
      carries an id the counter has already issued, and no id is listed twice. */
  function AllUsers(r: Registry): (all: seq<User>)
    ensures all == r.users
    ensures Valid(r) ==> forall i :: 0 <= i < |all| ==> all[i].id.Some? && 1 <= all[i].id.value < r.nextId
    ensures Valid(r) ==> forall i, j :: 0 <= i < j < |all| ==> all[i].id != all[j].id
  {
    r.users
  }

  /** The position of the first user with the given id, as `stream().filter(...).findFirst()` finds it. */
  function FindIndex(us: seq<User>, id: int): (k: Option<nat>)
    requires IdsAssigned(us)
    ensures k.Some? ==> k.value < |us| && us[k.value].id == Some(id)
    ensures k.Some? ==> forall j :: 0 <= j < k.value ==> us[j].id != Some(id)
    ensures k.None? <==> !HasId(us, id)
    decreases |us|
  {
    if us == [] then None
    else if us[0].id == Some(id) then Some(0)
    else
      match FindIndex(us[1..], id)
      case None => None
      case Some(k) => Some(k + 1)
  }

  /** `getUserById`: the first user with that id, or nothing. */
  function GetById(r: Registry, id: int): (found: Option<User>)
    requires IdsAssigned(r.users)
    ensures found.None? <==> !HasId(r.users, id)
    ensures found.Some? ==> found.value.id == Some(id) && found.value in r.users
    ensures found.Some? ==> exists i :: 0 <= i < |r.users| && r.users[i] == found.value &&
                                        forall j :: 0 <= j < i ==> r.users[j].id != Some(id)
  {
    match FindIndex(r.users, id)
    case None => None
    case Some(k) => Some(r.users[k])
  }

  /** Reference meaning of `updateUser`: the first user with the id is replaced by the payload with its
      id forced to the path id; with no such user nothing changes and nothing is returned. */
  function Update(r: Registry, id: int, u: User): (res: (Registry, Option<User>))
    requires IdsAssigned(r.users)
    ensures !HasId(r.users, id) ==> res == (r, None)
    ensures HasId(r.users, id) ==> res.1 == Some(WithId(u, Some(id)))
    ensures res.0.nextId == r.nextId
    ensures |res.0.users| == |r.users|
    ensures forall i :: 0 <= i < |r.users| && r.users[i].id != Some(id) ==> res.0.users[i] == r.users[i]
    ensures HasId(r.users, id) ==>
              var k := FindIndex(r.users, id).value;
              && res.0.users[k] == WithId(u, Some(id))
              && forall i :: 0 <= i < |r.users| && i != k ==> res.0.users[i] == r.users[i]
    ensures Valid(r) ==> Valid(res.0)
  {
    match FindIndex(r.users, id)
    case None => (r, None)
    case Some(k) =>
      var stored := WithId(u, Some(id));
      (Registry(r.users[k := stored], r.nextId), Some(stored))
  }

  /** `updateUser` as the Java loop writes it: scan by index, replace at the first match and return. */
  method UpdateUser(r: Registry, id: int, u: User) returns (r': Registry, result: Option<User>)
    requires IdsAssigned(r.users)
    ensures (r', result) == Update(r, id, u)
  {
    var i := 0;
    while i < |r.users|
      invariant 0 <= i <= |r.users|
      invariant forall j :: 0 <= j < i ==> r.users[j].id != Some(id)
    {
      if r.users[i].id == Some(id) {
        var stored := WithId(u, Some(id));
        r' := Registry(r.users[i := stored], r.nextId);
        result := Some(stored);
        return;
      }
      i := i + 1;
    }
    r' := r;
    result := None;
  }

  /** `removeIf(user -> user.getId().equals(id))`: every user with the id goes, the rest stay in order. */
  function RemoveId(us: seq<User>, id: int): (rest: seq<User>)
    requires IdsAssigned(us)
    ensures forall u :: u in rest <==> u in us && u.id != Some(id)
    ensures |rest| <= |us|
    ensures IdsAssigned(rest)
    ensures !HasId(us, id) ==> rest == us
    decreases |us|
  {
    if us == [] then []
    else if us[0].id == Some(id) then RemoveId(us[1..], id)
    else [us[0]] + RemoveId(us[1..], id)
  }

  /** `deleteUser`: true exactly when some user had the id; afterwards none has it. */
  function Delete(r: Registry, id: int): (res: (Registry, bool))
    requires IdsAssigned(r.users)
    ensures res.1 <==> HasId(r.users, id)
    ensures !HasId(res.0.users, id)
    ensures forall u :: u in res.0.users <==> u in r.users && u.id != Some(id)
    ensures res.0.nextId == r.nextId
    ensures !res.1 ==> res.0 == r
  {
    (Registry(RemoveId(r.users, id), r.nextId), HasId(r.users, id))
  }

  /** Removal keeps relative order: it distributes over concatenation. */
  lemma {:induction false} RemoveIdConcat(a: seq<User>, b: seq<User>, id: int)
    requires IdsAssigned(a) && IdsAssigned(b)
    ensures IdsAssigned(a + b)
    ensures RemoveId(a + b, id) == RemoveId(a, id) + RemoveId(b, id)
    decreases |a|
  {
    if a == [] {
      assert a + b == b;
    } else {
      var ab := a + b;
      assert ab[0] == a[0];
      assert ab[1..] == a[1..] + b;
      RemoveIdConcat(a[1..], b, id);
      if a[0].id != Some(id) {
        assert RemoveId(ab, id) == [a[0]] + (RemoveId(a[1..], id) + RemoveId(b, id));
      }
    }
  }

  /** With distinct ids, a successful delete removes exactly one user. */
  lemma {:induction false} RemoveIdLength(us: seq<User>, id: int)
    requires IdsAssigned(us) && DistinctIds(us)
    ensures |RemoveId(us, id)| == if HasId(us, id) then |us| - 1 else |us|
    decreases |us|
  {
    if us != [] {
      var tail := us[1..];
      assert DistinctIds(tail) by {
        forall i, j | 0 <= i < j < |tail| ensures tail[i].id != tail[j].id {
          assert tail[i] == us[i + 1] && tail[j] == us[j + 1];
        }
      }
      if us[0].id == Some(id) {
        assert !HasId(tail, id) by {
          forall i | 0 <= i < |tail| ensures tail[i].id != Some(id) {
            assert tail[i] == us[i + 1];
          }
        }
      } else {
        RemoveIdLength(tail, id);
        assert HasId(us, id) <==> HasId(tail, id) by {
          if HasId(us, id) {
            var i :| 0 <= i < |us| && us[i].id == Some(id);
            assert tail[i - 1] == us[i];
          }
          if HasId(tail, id) {
            var i :| 0 <= i < |tail| && tail[i].id == Some(id);
            assert us[i + 1] == tail[i];
          }
        }
      }
    }
  }

  /** Deleting keeps the invariant, shrinks the list by one on success, and a repeated delete of the same
      id reports false and changes nothing. */
  lemma DeleteProperties(r: Registry, id: int)
    requires Valid(r)
    ensures Valid(Delete(r, id).0)
    ensures Delete(r, id).1 ==> |Delete(r, id).0.users| == |r.users| - 1
    ensures Delete(Delete(r, id).0, id) == (Delete(r, id).0, false)
  {
    var us := r.users;
    var rest := RemoveId(us, id);
    RemoveIdLength(us, id);
    forall i | 0 <= i < |rest| ensures 1 <= rest[i].id.value < r.nextId {
      assert rest[i] in us;
    }
    assert DistinctIds(rest) by {
      RemoveIdKeepsDistinct(us, id);
    }
  }

  lemma {:induction false} RemoveIdKeepsDistinct(us: seq<User>, id: int)
    requires IdsAssigned(us) && DistinctIds(us)
    ensures DistinctIds(RemoveId(us, id))
    decreases |us|
  {
    if us != [] {
      var tail := us[1..];
      assert DistinctIds(tail) by {
        forall i, j | 0 <= i < j < |tail| ensures tail[i].id != tail[j].id {
          assert tail[i] == us[i + 1] && tail[j] == us[j + 1];
        }
      }
      RemoveIdKeepsDistinct(tail, id);
      if us[0].id != Some(id) {
        var rest := RemoveId(tail, id);
        forall j | 0 <= j < |rest| ensures rest[j].id != us[0].id {
          assert rest[j] in tail;
          var k :| 0 <= k < |tail| && tail[k] == rest[j];
          assert us[k + 1] == rest[j];
        }
      }
    }
  }

  /** A request to the registry, as the HTTP layer issues them one after another. */
  datatype Request = CreateReq(user: User) | UpdateReq(id: int, user: User) | DeleteReq(id: int)

  function Apply(r: Registry, req: Request): (r': Registry)
    requires Valid(r)
    ensures Valid(r')
    ensures r'.nextId == if req.CreateReq? then r.nextId + 1 else r.nextId
  {
    match req
    case CreateReq(u) => Create(r, u).0
    case UpdateReq(id, u) => Update(r, id, u).0
    case DeleteReq(id) => DeleteProperties(r, id); Delete(r, id).0
  }

  function Run(r: Registry, reqs: seq<Request>): (r': Registry)
    requires Valid(r)
    ensures Valid(r')
    decreases |reqs|
  {
    if reqs == [] then r else Run(Apply(r, reqs[0]), reqs[1..])
  }

  /** The ids handed out by the create requests of a run, in order. */
  function CreatedIds(r: Registry, reqs: seq<Request>): seq<int>
    requires Valid(r)
    decreases |reqs|
  {
    if reqs == [] then []
    else
      var rest := CreatedIds(Apply(r, reqs[0]), reqs[1..]);
      if reqs[0].CreateReq? then [r.nextId] + rest else rest
  }

  /** `ids` strictly increase and all lie in `[lo, hi)`. */
  predicate IncreasingWithin(ids: seq<int>, lo: int, hi: int) {
    && (forall i :: 0 <= i < |ids| ==> lo <= ids[i] < hi)
    && (forall i, j :: 0 <= i < j < |ids| ==> ids[i] < ids[j])
  }

  lemma IncreasingWithinCons(lo: int, rest: seq<int>, hi: int)
    requires IncreasingWithin(rest, lo + 1, hi) && lo < hi
    ensures IncreasingWithin([lo] + rest, lo, hi)
  {
    var ids := [lo] + rest;
    forall i, j | 0 <= i < j < |ids| ensures ids[i] < ids[j] {
      assert ids[j] == rest[j - 1];
      if i > 0 { assert ids[i] == rest[i - 1]; }
    }
  }

  lemma RunUnfold(r: Registry, reqs: seq<Request>)
    requires Valid(r) && reqs != []
    ensures Run(r, reqs) == Run(Apply(r, reqs[0]), reqs[1..])
    ensures CreatedIds(r, reqs) == var rest := CreatedIds(Apply(r, reqs[0]), reqs[1..]);
                                   if reqs[0].CreateReq? then [r.nextId] + rest else rest
  {
  }

  /** Ids are never reused: across any run, deletes included, created ids strictly increase, start at
      the counter (so exceed every id stored before the run) and stay below the final counter. */
  lemma {:induction false} CreatedIdsIncrease(r: Registry, reqs: seq<Request>)
    requires Valid(r)
    ensures IncreasingWithin(CreatedIds(r, reqs), r.nextId, Run(r, reqs).nextId)
    ensures r.nextId <= Run(r, reqs).nextId
    decreases |reqs|
  {
    if reqs != [] {
      var r1 := Apply(r, reqs[0]);
      CreatedIdsIncrease(r1, reqs[1..]);
      RunUnfold(r, reqs);
      var rest := CreatedIds(r1, reqs[1..]);
      if reqs[0].CreateReq? {
        IncreasingWithinCons(r.nextId, rest, Run(r, reqs).nextId);
      }
    }
  }

  function CreateRequests(us: seq<User>): (reqs: seq<Request>)
    ensures |reqs| == |us|
    decreases |us|
  {
    if us == [] then [] else [CreateReq(us[0])] + CreateRequests(us[1..])
  }

  /** The users as stored by successive creates: the same payloads with consecutive ids from `first`. */
  function Numbered(us: seq<User>, first: int): seq<User>
    decreases |us|
  {
    if us == [] then [] else [WithId(us[0], Some(first))] + Numbered(us[1..], first + 1)
  }

  /** `getAllUsers` after a series of creates: the earlier list followed by the new users in the order
      they were created, numbered consecutively from the counter. */
  lemma {:induction false} CreatesAppendInOrder(r: Registry, us: seq<User>)
    requires Valid(r)
    ensures AllUsers(Run(r, CreateRequests(us))) == r.users + Numbered(us, r.nextId)
    ensures Run(r, CreateRequests(us)).nextId == r.nextId + |us|
    decreases |us|
  {
    var reqs := CreateRequests(us);
    if us == [] {
      assert r.users + [] == r.users;
    } else {
      RunUnfold(r, reqs);
      assert reqs[0] == CreateReq(us[0]);
      assert reqs[1..] == CreateRequests(us[1..]);
      var r1 := Create(r, us[0]).0;
      CreatesAppendInOrder(r1, us[1..]);
      assert r1.users + Numbered(us[1..], r1.nextId) == r.users + Numbered(us, r.nextId);
    }
  }

  /** Users validated by the HTTP layer stay valid in the registry: creates and updates with valid
      payloads, and any delete, keep every stored user valid. */
  lemma ApplyKeepsUsersValid(r: Registry, req: Request, wellFormed: string -> bool)
    requires Valid(r)
    requires forall i :: 0 <= i < |r.users| ==> ValidUser(r.users[i], wellFormed)
    requires !req.DeleteReq? ==> ValidUser(req.user, wellFormed)
    ensures var r' := Apply(r, req); forall i :: 0 <= i < |r'.users| ==> ValidUser(r'.users[i], wellFormed)
  {
    var r' := Apply(r, req);
    match req
    case CreateReq(u) =>
      ValidityIgnoresId(u, Some(r.nextId), wellFormed);
    case UpdateReq(id, u) =>
      ValidityIgnoresId(u, Some(id), wellFormed);
    case DeleteReq(id) =>
      forall i | 0 <= i < |r'.users| ensures ValidUser(r'.users[i], wellFormed) {
        assert r'.users[i] in r.users;
      }
  }

  /** On a fresh registry a create gets id 3, updating id 1
      forces the payload's id to 1, updating 999 changes nothing, and deleting 1 twice answers true then
      false. */
  lemma SeededScenario(alice: User, x: User)
    ensures Create(Seeded(), alice).1.id == Some(3)
    ensures Update(Seeded(), 1, x).1 == Some(x.(id := Some(1)))
    ensures Update(Seeded(), 999, x) == (Seeded(), None)
    ensures Delete(Seeded(), 1).1
    ensures !Delete(Delete(Seeded(), 1).0, 1).1
  {
    var s := Seeded();
    assert s.users[0].id == Some(1);
    assert HasId(s.users, 1);
    DeleteProperties(s, 1);
  }
}
