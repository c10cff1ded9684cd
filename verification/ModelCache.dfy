/**
  The process-wide cache of loaded models: a map of weak references behind a mutex,
  checked before a load and again after it. Each critical section is one step; the
  load between them is not protected, so two threads may load the same file.
 */
module ModelCache {

  type Path = string
  type Id = nat

  /** One call of `LoadModel`, and later the strong reference it gave to its caller. */
  datatype Client =
    | Calls(path: Path)
    | Missed(path: Path)
    | Loaded(path: Path, own: Id)
    | Holds(path: Path, model: Id)
    | Gone

  /**
    `cache` holds weak references: an entry names a model that may have been freed.
    `next` is the name of the model the next load creates.
   */
  datatype State = State(cache: map<Path, Id>, clients: map<nat, Client>, next: Id)

  datatype Step =
    | Call(c: nat, path: Path)
    | Lookup(c: nat)
    | LoadFile(c: nat, ok: bool)
    | Publish(c: nat)
    | Release(c: nat)

  /** The strong reference a client has. */
  predicate Refers(k: Client, m: Id) {
    (k.Holds? && k.model == m) || (k.Loaded? && k.own == m)
  }

  /** A model is alive while some client has a strong reference to it. */
  predicate Alive(s: State, m: Id) {
    exists c :: c in s.clients && Refers(s.clients[c], m)
  }

  /** `weak.lock()` on the entry of a path gives a reference. */
  predicate Cached(s: State, path: Path) {
    path in s.cache && Alive(s, s.cache[path])
  }

  predicate Enabled(s: State, st: Step) {
    match st
    case Call(c, _) => c !in s.clients
    case Lookup(c) => c in s.clients && s.clients[c].Calls?
    case LoadFile(c, _) => c in s.clients && s.clients[c].Missed?
    case Publish(c) => c in s.clients && s.clients[c].Loaded?
    case Release(c) => c in s.clients && s.clients[c].Holds?
  }

  function Set(s: State, c: nat, k: Client): State {
    s.(clients := s.clients[c := k])
  }

  function Apply(s: State, st: Step): State
    requires Enabled(s, st)
  {
    match st
    case Call(c, path) => Set(s, c, Calls(path))
    case Lookup(c) =>
      var path := s.clients[c].path;
      if Cached(s, path) then Set(s, c, Holds(path, s.cache[path])) else Set(s, c, Missed(path))
    case LoadFile(c, ok) =>
      if ok then Set(s, c, Loaded(s.clients[c].path, s.next)).(next := s.next + 1) else Set(s, c, Gone)
    case Publish(c) =>
      var k := s.clients[c];
      if Cached(s, k.path) then Set(s, c, Holds(k.path, s.cache[k.path]))
      else Set(s, c, Holds(k.path, k.own)).(cache := s.cache[k.path := k.own])
    case Release(c) => Set(s, c, Gone)
  }

  predicate IsRun(s: State, steps: seq<Step>)
    decreases |steps|
  {
    steps == [] || (Enabled(s, steps[0]) && IsRun(Apply(s, steps[0]), steps[1..]))
  }

  function After(s: State, steps: seq<Step>): State
    requires IsRun(s, steps)
    decreases |steps|
  {
    if steps == [] then s else After(Apply(s, steps[0]), steps[1..])
  }

  const EMPTY := State(map[], map[], 0)

  // ---- The invariant ------------------------------------------------------

  /** A model handed out for a path is the one the cache names. */
  ghost predicate HandlesAgree(s: State) {
    forall c :: c in s.clients && s.clients[c].Holds? ==>
      s.clients[c].path in s.cache && s.cache[s.clients[c].path] == s.clients[c].model
  }

  /** A model still private to the thread that loaded it is no one else's and in no entry. */
  ghost predicate LoadsArePrivate(s: State) {
    && (forall c :: c in s.clients && s.clients[c].Loaded? ==>
          s.clients[c].own < s.next && forall p :: p in s.cache ==> s.cache[p] != s.clients[c].own)
    && (forall c, d :: c in s.clients && d in s.clients && c != d && s.clients[c].Loaded? ==>
          !Refers(s.clients[d], s.clients[c].own))
    && (forall p :: p in s.cache ==> s.cache[p] < s.next)
  }

  /** Two paths never share a model. */
  ghost predicate OnePath(s: State) {
    forall p, q :: p in s.cache && q in s.cache && s.cache[p] == s.cache[q] ==> p == q
  }

  ghost predicate Inv(s: State) {
    HandlesAgree(s) && LoadsArePrivate(s) && OnePath(s)
  }

  lemma PublishKeepsInv(s: State, c: nat)
    requires Inv(s) && Enabled(s, Publish(c))
    ensures Inv(Apply(s, Publish(c)))
  {
    var k, t := s.clients[c], Apply(s, Publish(c));
    if !Cached(s, k.path) {
      forall d | d in t.clients && t.clients[d].Holds?
        ensures t.clients[d].path in t.cache && t.cache[t.clients[d].path] == t.clients[d].model
      {
        if d != c && t.clients[d].path == k.path {
          // A live handle would have kept the entry alive.
          assert Refers(s.clients[d], s.cache[k.path]);
          assert Alive(s, s.cache[k.path]);
        }
      }
    }
  }

  lemma LookupKeepsInv(s: State, c: nat)
    requires Inv(s) && Enabled(s, Lookup(c))
    ensures Inv(Apply(s, Lookup(c)))
  {
  }

  lemma LoadKeepsInv(s: State, c: nat, ok: bool)
    requires Inv(s) && Enabled(s, LoadFile(c, ok))
    ensures Inv(Apply(s, LoadFile(c, ok)))
  {
  }

  /** A client without a reference changes nothing the invariant speaks of. */
  lemma IdleKeepsInv(s: State, c: nat, k: Client)
    requires Inv(s) && (k.Calls? || k.Gone?)
    ensures Inv(Set(s, c, k))
  {
  }

  /** Every step of every thread keeps the invariant. */
  lemma StepKeepsInv(s: State, st: Step)
    requires Inv(s) && Enabled(s, st)
    ensures Inv(Apply(s, st))
  {
    hide Inv;
    match st {
      case Call(c, path) => IdleKeepsInv(s, c, Calls(path));
      case Lookup(c) => LookupKeepsInv(s, c);
      case LoadFile(c, ok) => LoadKeepsInv(s, c, ok);
      case Publish(c) => PublishKeepsInv(s, c);
      case Release(c) => IdleKeepsInv(s, c, Gone);
    }
  }

  lemma {:induction false} RunKeepsInv(s: State, steps: seq<Step>)
    requires Inv(s) && IsRun(s, steps)
    ensures Inv(After(s, steps))
    decreases |steps|
  {
    if steps != [] {
      StepKeepsInv(s, steps[0]);
      RunKeepsInv(Apply(s, steps[0]), steps[1..]);
    }
  }

  // ---- What callers see ---------------------------------------------------

  /**
    In every interleaving all live handles for one path are the same model, the one
    the cache names, and handles for different paths are different models.
   */
  lemma LiveHandlesAgree(steps: seq<Step>, c: nat, d: nat)
    requires IsRun(EMPTY, steps)
    requires var s := After(EMPTY, steps);
      c in s.clients && d in s.clients && s.clients[c].Holds? && s.clients[d].Holds?
    ensures var s := After(EMPTY, steps);
      && s.clients[c].path in s.cache && s.cache[s.clients[c].path] == s.clients[c].model
      && (s.clients[c].path == s.clients[d].path <==> s.clients[c].model == s.clients[d].model)
  {
    RunKeepsInv(EMPTY, steps);
  }

  lemma HandleStep(s: State, st: Step, c: nat)
    requires Inv(s) && c in s.clients && s.clients[c].Holds? && Enabled(s, st) && st != Release(c)
    ensures var t := Apply(s, st); c in t.clients && t.clients[c] == s.clients[c]
  {
  }

  /** A handle keeps its model: no other thread's load or publication replaces the entry while it lives. */
  lemma {:induction false} HandleIsStable(s: State, steps: seq<Step>, c: nat)
    requires Inv(s) && c in s.clients && s.clients[c].Holds? && IsRun(s, steps)
    requires forall i :: 0 <= i < |steps| ==> steps[i] != Release(c)
    ensures var t := After(s, steps);
      c in t.clients && t.clients[c] == s.clients[c] && s.clients[c].path in t.cache && t.cache[s.clients[c].path] == s.clients[c].model
    decreases |steps|
  {
    if steps != [] {
      hide Apply, Enabled, LoadsArePrivate, OnePath;
      StepKeepsInv(s, steps[0]);
      HandleStep(s, steps[0], c);
      HandleIsStable(Apply(s, steps[0]), steps[1..], c);
    }
  }

  /** A lookup takes the entry's model exactly when someone still holds it; only otherwise a load follows. */
  lemma LookupMeaning(s: State, c: nat)
    requires Enabled(s, Lookup(c))
    ensures var path, t := s.clients[c].path, Apply(s, Lookup(c));
      && t.cache == s.cache && t.next == s.next && c in t.clients
      && (forall d :: d in s.clients && d != c ==> d in t.clients && t.clients[d] == s.clients[d])
      && (t.clients[c] == Missed(path) <==> !Cached(s, path))
      && (Cached(s, path) ==> t.clients[c] == Holds(path, s.cache[path]))
  {
  }

  /** As long as a handle lives, whoever looks its path up is given the same model, without a load. */
  lemma LiveModelIsShared(s: State, steps: seq<Step>, holder: nat, c: nat)
    requires Inv(s) && holder in s.clients && s.clients[holder].Holds? && IsRun(s, steps)
    requires forall i :: 0 <= i < |steps| ==> steps[i] != Release(holder)
    requires var t := After(s, steps); Enabled(t, Lookup(c)) && t.clients[c].path == s.clients[holder].path
    ensures var k, u := s.clients[holder], Apply(After(s, steps), Lookup(c));
      c in u.clients && u.clients[c] == Holds(k.path, k.model)
  {
    HandleIsStable(s, steps, holder);
    var t := After(s, steps);
    assert Refers(t.clients[holder], t.cache[t.clients[holder].path]);
    LookupMeaning(t, c);
  }

  /** The name of a model a client holds privately never reaches another client, nor any caller, unless it is published. */
  ghost predicate Hidden(s: State, m: Id) {
    && m < s.next
    && (forall c :: c in s.clients ==> !Refers(s.clients[c], m))
    && (forall p :: p in s.cache ==> s.cache[p] != m)
  }

  lemma {:induction false} HiddenStays(s: State, steps: seq<Step>, m: Id)
    requires Hidden(s, m) && IsRun(s, steps)
    ensures Hidden(After(s, steps), m)
    decreases |steps|
  {
    if steps != [] {
      HiddenStays(Apply(s, steps[0]), steps[1..], m);
    }
  }

  /**
    A thread that finds the entry filled after its own load returns the cached model
    and discards its duplicate, which no caller sees, then or later.
   */
  lemma DuplicateIsDiscarded(s: State, c: nat, steps: seq<Step>)
    requires Inv(s) && Enabled(s, Publish(c)) && Cached(s, s.clients[c].path)
    requires IsRun(Apply(s, Publish(c)), steps)
    ensures var k, t := s.clients[c], Apply(s, Publish(c));
      && t.clients[c] == Holds(k.path, s.cache[k.path]) && t.cache == s.cache
      && !Alive(After(t, steps), k.own) && Hidden(After(t, steps), k.own)
  {
    HiddenStays(Apply(s, Publish(c)), steps, s.clients[c].own);
  }
}
