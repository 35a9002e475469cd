/** The record type `Parol` and its container `Parols` (src/core.rs).

    Rust methods taking `&mut self` become pure functions that return the
    new value of the receiver together with the method's own result; those
    taking `&self` return only their result, so they cannot change the
    receiver. Dafny datatypes are values, which models the `clone()` that
    every getter performs. */
module Core {
  import opened Wrappers

  // ---------------------------------------------------------------------
  // Parol: one credential entry
  // ---------------------------------------------------------------------

  /** A credential: application name, username, password and free notes. */
  datatype Parol = Parol(application: string, username: string, password: string, notes: string)

  /** The four getters. Each returns a copy of its field; with value
      semantics the `clone()` is implicit. */
  function GetApplication(p: Parol): string { p.application }
  function GetUsername(p: Parol): string { p.username }
  function GetPassword(p: Parol): string { p.password }
  function GetNotes(p: Parol): string { p.notes }

  /** `Parol::new`: every field is the empty string. */
  function NewParol(): (p: Parol)
    ensures GetApplication(p) == [] && GetUsername(p) == []
    ensures GetPassword(p) == [] && GetNotes(p) == []
  {
    Parol("", "", "", "")
  }

  /** `Parol::new_with_arguments`: the four arguments land in the four
      fields, in declaration order. */
  function NewWithArguments(application: string, username: string, password: string, notes: string): (p: Parol)
    ensures GetApplication(p) == application
    ensures GetUsername(p) == username
    ensures GetPassword(p) == password
    ensures GetNotes(p) == notes
  {
    Parol(application, username, password, notes)
  }

  /** `Parol::set_application`: the getter sees the new value and the
      other three fields keep theirs. */
  function SetApplication(p: Parol, application: string): (q: Parol)
    ensures GetApplication(q) == application
    ensures GetUsername(q) == GetUsername(p)
    ensures GetPassword(q) == GetPassword(p)
    ensures GetNotes(q) == GetNotes(p)
  {
    p.(application := application)
  }

  function SetUsername(p: Parol, username: string): (q: Parol)
    ensures GetUsername(q) == username
    ensures GetApplication(q) == GetApplication(p)
    ensures GetPassword(q) == GetPassword(p)
    ensures GetNotes(q) == GetNotes(p)
  {
    p.(username := username)
  }

  function SetPassword(p: Parol, password: string): (q: Parol)
    ensures GetPassword(q) == password
    ensures GetApplication(q) == GetApplication(p)
    ensures GetUsername(q) == GetUsername(p)
    ensures GetNotes(q) == GetNotes(p)
  {
    p.(password := password)
  }

  function SetNotes(p: Parol, notes: string): (q: Parol)
    ensures GetNotes(q) == notes
    ensures GetApplication(q) == GetApplication(p)
    ensures GetUsername(q) == GetUsername(p)
    ensures GetPassword(q) == GetPassword(p)
  {
    p.(notes := notes)
  }

  /** The getter/setter pair of each field behaves as a lens: writing the
      value just read changes nothing, and a second write overrides the
      first. Together with the setters' own contracts this says that a
      `Parol` is exactly its four fields. */
  lemma ApplicationLens(p: Parol, a: string, b: string)
    ensures SetApplication(p, GetApplication(p)) == p
    ensures SetApplication(SetApplication(p, a), b) == SetApplication(p, b)
  {
  }

  lemma UsernameLens(p: Parol, a: string, b: string)
    ensures SetUsername(p, GetUsername(p)) == p
    ensures SetUsername(SetUsername(p, a), b) == SetUsername(p, b)
  {
  }

  lemma PasswordLens(p: Parol, a: string, b: string)
    ensures SetPassword(p, GetPassword(p)) == p
    ensures SetPassword(SetPassword(p, a), b) == SetPassword(p, b)
  {
  }

  lemma NotesLens(p: Parol, a: string, b: string)
    ensures SetNotes(p, GetNotes(p)) == p
    ensures SetNotes(SetNotes(p, a), b) == SetNotes(p, b)
  {
  }

  /** Filling an empty `Parol` field by field gives the same record as
      `new_with_arguments` (the two ways the tests build a `Parol`). */
  lemma SettersBuildNewWithArguments(application: string, username: string, password: string, notes: string)
    ensures SetNotes(SetPassword(SetUsername(SetApplication(NewParol(), application), username), password), notes)
         == NewWithArguments(application, username, password, notes)
  {
  }

  // ---------------------------------------------------------------------
  // Parols: the ordered container with a cached length
  // ---------------------------------------------------------------------

  /** `Parols`: the vector of records and the cached `len` field. */
  datatype Parols = Parols(parols: seq<Parol>, len: nat)

  /** The class invariant: the cached length is the vector's length. */
  predicate Valid(ps: Parols) {
    ps.len == |ps.parols|
  }

  /** The out-of-bounds error of `set` and `remove`, carrying the current
      length and the requested index that the message reports. */
  datatype Error = OutOfBounds(len: nat, id: nat)

  /** What a `&mut self` method of `Parols` hands back: the receiver after
      the call and the method's own return value. */
  datatype Updated<+R> = Updated(after: Parols, answer: R)

  /** `get`, `set` and `remove` test `id` against the cached length and
      then index the vector; they can only panic when the cached length
      exceeds the vector's, so this is what they demand of the receiver.
      Every valid `Parols` meets it for every index. */
  predicate Indexable(ps: Parols, id: nat) {
    id < ps.len ==> id < |ps.parols|
  }

  /** `Parols::new`: the empty container. */
  function NewParols(): (ps: Parols)
    ensures Valid(ps)
    ensures Len(ps) == 0
    ensures forall id: nat :: Get(ps, id) == None
  {
    Parols([], 0)
  }

  /** `Parols::new_from_database`: the given vector, unchanged and in
      order, with the length derived from it. */
  function NewFromDatabase(database: seq<Parol>): (ps: Parols)
    ensures Valid(ps)
    ensures Len(ps) == |database|
    ensures forall id: nat :: id < |database| ==> Get(ps, id) == Some(database[id])
    ensures forall id: nat :: |database| <= id ==> Get(ps, id) == None
  {
    Parols(database, |database|)
  }

  /** `Parols::get`: `None` exactly when `id` is not below the cached
      length, otherwise the record at `id`. Taking the container by value
      and returning only the answer, it cannot modify the container. */
  function Get(ps: Parols, id: nat): (r: Option<Parol>)
    requires Indexable(ps, id)
    ensures r == None <==> ps.len <= id
    ensures r.Some? ==> id < |ps.parols| && r.value == ps.parols[id]
  {
    if ps.len <= id then None else Some(ps.parols[id])
  }

  /** `Parols::set`. Out of range: the error names the length and the
      index, and the container is returned as it was. In range: position
      `id` now holds `parol`, every other position and the length are
      unchanged, and the cached length is recomputed. */
  function Set(ps: Parols, id: nat, parol: Parol): (res: Updated<Outcome<Error>>)
    requires Indexable(ps, id)
    ensures ps.len <= id ==> res.after == ps && res.answer == Fail(OutOfBounds(ps.len, id))
    ensures id < ps.len ==>
      && res.answer == Pass
      && Valid(res.after)
      && |res.after.parols| == |ps.parols|
      && res.after.parols[id] == parol
      && forall j :: 0 <= j < |ps.parols| && j != id ==> res.after.parols[j] == ps.parols[j]
  {
    if ps.len <= id then
      Updated(ps, Fail(OutOfBounds(ps.len, id)))
    else
      var parols := ps.parols[id := parol];
      Updated(Parols(parols, |parols|), Pass)
  }

  /** `Parols::push`: `parol` becomes the last element, the earlier
      elements stay where they were, and the answer is the new length,
      which for a valid container is the old length plus one. */
  function Push(ps: Parols, parol: Parol): (res: Updated<nat>)
    ensures Valid(res.after)
    ensures |res.after.parols| == |ps.parols| + 1
    ensures res.after.parols[..|ps.parols|] == ps.parols
    ensures res.after.parols[|ps.parols|] == parol
    ensures res.answer == Len(res.after)
    ensures Valid(ps) ==> res.answer == Len(ps) + 1
  {
    var parols := ps.parols + [parol];
    Updated(Parols(parols, |parols|), |parols|)
  }

  /** `Parols::remove`. Out of range: the error names the length and the
      index, and the container is returned as it was. In range: the old
      record at `id` is returned, the records before `id` keep their
      positions, the ones after it shift down by one, and the length drops
      by one. */
  function Remove(ps: Parols, id: nat): (res: Updated<Result<Parol, Error>>)
    requires Indexable(ps, id)
    ensures ps.len <= id ==> res.after == ps && res.answer == Failure(OutOfBounds(ps.len, id))
    ensures id < ps.len ==>
      && res.answer == Success(ps.parols[id])
      && Valid(res.after)
      && |res.after.parols| == |ps.parols| - 1
      && (forall j :: 0 <= j < id ==> res.after.parols[j] == ps.parols[j])
      && (forall j :: id <= j < |res.after.parols| ==> res.after.parols[j] == ps.parols[j + 1])
  {
    if ps.len <= id then
      Updated(ps, Failure(OutOfBounds(ps.len, id)))
    else
      var parols := ps.parols[..id] + ps.parols[id + 1..];
      Updated(Parols(parols, |parols|), Success(ps.parols[id]))
  }

  /** `Parols::len`: the cached length, which is the number of records
      whenever the invariant holds. */
  function Len(ps: Parols): (n: nat)
    ensures Valid(ps) ==> n == |ps.parols|
  {
    ps.len
  }

  lemma ValidIsIndexable(ps: Parols, id: nat)
    requires Valid(ps)
    ensures Indexable(ps, id)
  {
  }

  /** Reading after `set`: the new record at `id`, the old one elsewhere. */
  lemma GetAfterSet(ps: Parols, id: nat, parol: Parol, j: nat)
    requires Valid(ps) && id < Len(ps)
    ensures Get(Set(ps, id, parol).after, j) == if j == id then Some(parol) else Get(ps, j)
  {
  }

  /** Writing back the record that `set` overwrote restores the container. */
  lemma SetUndo(ps: Parols, id: nat, parol: Parol)
    requires Valid(ps) && id < Len(ps)
    ensures Set(Set(ps, id, parol).after, id, ps.parols[id]).after == ps
  {
    var after := Set(Set(ps, id, parol).after, id, ps.parols[id]).after;
    assert after.parols == ps.parols;
  }

  /** Reading after `push`: the pushed record at the old length, the old
      records below it, nothing above it. */
  lemma GetAfterPush(ps: Parols, parol: Parol, j: nat)
    requires Valid(ps)
    ensures Get(Push(ps, parol).after, j)
         == if j == Len(ps) then Some(parol) else if j < Len(ps) then Get(ps, j) else None
  {
  }

  /** Removing the record just pushed gives it back and restores the
      container: `remove` undoes `push`. */
  lemma RemoveUndoesPush(ps: Parols, parol: Parol)
    requires Valid(ps)
    ensures Remove(Push(ps, parol).after, Len(ps)) == Updated(ps, Success(parol))
  {
    var pushed := Push(ps, parol).after;
    assert pushed.parols[..Len(ps)] + pushed.parols[Len(ps) + 1..] == ps.parols;
  }

  /** Reading after `remove`: indices below `id` are unaffected, the ones
      at or above it see the record one further up. */
  lemma GetAfterRemove(ps: Parols, id: nat, j: nat)
    requires Valid(ps) && id < Len(ps)
    ensures Get(Remove(ps, id).after, j) == if j < id then Get(ps, j) else Get(ps, j + 1)
  {
  }

  // ---------------------------------------------------------------------
  // Sessions: any sequence of mutating calls keeps the invariant
  // ---------------------------------------------------------------------

  /** One call of a mutating `Parols` method, with its arguments. */
  datatype Op = PushOp(parol: Parol) | SetOp(id: nat, parol: Parol) | RemoveOp(id: nat)

  /** The receiver after one call, whatever the call's own result. */
  function Step(ps: Parols, op: Op): (ps': Parols)
    requires Valid(ps)
    ensures Valid(ps')
    ensures op.PushOp? ==> Len(ps') == Len(ps) + 1
    ensures op.SetOp? ==> Len(ps') == Len(ps)
    ensures op.RemoveOp? ==> Len(ps') == if op.id < Len(ps) then Len(ps) - 1 else Len(ps)
  {
    match op
    case PushOp(parol) => Push(ps, parol).after
    case SetOp(id, parol) => Set(ps, id, parol).after
    case RemoveOp(id) => Remove(ps, id).after
  }

  /** The receiver after a whole sequence of calls, starting from a valid
      container: the cached length still equals the number of records, so
      every later `get`, `set` or `remove` is safe. */
  function Run(ps: Parols, ops: seq<Op>): (ps': Parols)
    requires Valid(ps)
    ensures Valid(ps')
    ensures Len(ps') <= Len(ps) + |ops|
    decreases |ops|
  {
    if ops == [] then ps else Step(Run(ps, ops[..|ops| - 1]), ops[|ops| - 1])
  }
}
