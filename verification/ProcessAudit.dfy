/** Three-valued process ancestry and the credential audit of scripts/audit_t5_hf_token_process_scope.py. */
module ProcessAudit {
  import opened Wrappers
  import opened Sequences

  datatype Row = Row(ppid: int, pgid: int)

  type Identities = map<int, Row>

  // ---------- what the parent chain says ----------

  /** The chain goes on above `p`: it is a known process that is neither the ancestor nor init. */
  predicate Passes(ids: Identities, ancestor: int, p: int) {
    p > 0 && p != ancestor && p != 1 && p in ids
  }

  /** `n` parents up from `p`, every one below passing, stands `q`. */
  ghost predicate Up(ids: Identities, ancestor: int, p: int, n: nat, q: int)
    decreases n
  {
    if n == 0 then p == q else Passes(ids, ancestor, p) && Up(ids, ancestor, ids[p].ppid, n - 1, q)
  }

  /** The chain meets the ancestor, through known rows and before init. */
  ghost predicate Meets(ids: Identities, ancestor: int, p: int) {
    ancestor > 0 && exists n :: Up(ids, ancestor, p, n, ancestor)
  }

  /** The chain ends at init or at a non-positive pid without having met the ancestor. */
  ghost predicate Leaves(ids: Identities, ancestor: int, p: int) {
    exists n, q :: Up(ids, ancestor, p, n, q) && (q <= 0 || (q == 1 && q != ancestor))
  }

  /** The chain runs into a process without a row. */
  ghost predicate Breaks(ids: Identities, ancestor: int, p: int) {
    exists n, q :: Up(ids, ancestor, p, n, q) && q > 0 && q != ancestor && q != 1 && q !in ids
  }

  /** The chain comes back to one of its processes. */
  ghost predicate Loops(ids: Identities, ancestor: int, p: int) {
    exists n, k, q :: Returns(ids, ancestor, p, n, k, q)
  }

  ghost predicate Returns(ids: Identities, ancestor: int, p: int, n: nat, k: nat, q: int) {
    k > 0 && Up(ids, ancestor, p, n, q) && Up(ids, ancestor, q, k, q)
  }

  lemma {:induction false} UpThenUp(ids: Identities, ancestor: int, p: int, n: nat, q: int, m: nat, r: int)
    requires Up(ids, ancestor, p, n, q) && Up(ids, ancestor, q, m, r)
    ensures Up(ids, ancestor, p, n + m, r)
    decreases n
  {
    if n > 0 {
      UpThenUp(ids, ancestor, ids[p].ppid, n - 1, q, m, r);
    }
  }

  /** A chain has one end: if it stops at `q` it can neither stop elsewhere nor go further. */
  lemma {:induction false} OneEnd(ids: Identities, ancestor: int, p: int, n: nat, q: int, m: nat, r: int)
    requires Up(ids, ancestor, p, n, q) && !Passes(ids, ancestor, q) && Up(ids, ancestor, p, m, r)
    ensures m <= n && (!Passes(ids, ancestor, r) ==> m == n && r == q)
    decreases n
  {
    if n > 0 && m > 0 {
      OneEnd(ids, ancestor, ids[p].ppid, n - 1, q, m - 1, r);
    }
  }

  lemma {:induction false} AroundAgain(ids: Identities, ancestor: int, q: int, k: nat, times: nat)
    requires Up(ids, ancestor, q, k, q)
    ensures Up(ids, ancestor, q, k * times, q)
    decreases times
  {
    if times > 0 {
      AroundAgain(ids, ancestor, q, k, times - 1);
      UpThenUp(ids, ancestor, q, k, q, k * (times - 1), q);
      assert k + k * (times - 1) == k * times;
    }
  }

  /** A chain that comes back never stops. */
  lemma LoopsNeverStop(ids: Identities, ancestor: int, p: int, n: nat, k: nat, q: int, m: nat, r: int)
    requires Returns(ids, ancestor, p, n, k, q) && Up(ids, ancestor, p, m, r)
    ensures Passes(ids, ancestor, r)
  {
    AroundAgain(ids, ancestor, q, k, m + 1);
    UpThenUp(ids, ancestor, p, n, q, k * (m + 1), q);
    assert k * (m + 1) >= m + 1;
    if !Passes(ids, ancestor, r) {
      OneEnd(ids, ancestor, p, m, r, n + k * (m + 1), q);
    }
  }

  /** The four fates of a chain exclude one another. */
  lemma FatesExclude(ids: Identities, ancestor: int, p: int)
    ensures Meets(ids, ancestor, p) ==> !Leaves(ids, ancestor, p) && !Breaks(ids, ancestor, p) && !Loops(ids, ancestor, p)
    ensures Leaves(ids, ancestor, p) ==> !Breaks(ids, ancestor, p) && !Loops(ids, ancestor, p)
    ensures Breaks(ids, ancestor, p) ==> !Loops(ids, ancestor, p)
  {
    forall n, q, m, r | Up(ids, ancestor, p, n, q) && !Passes(ids, ancestor, q)
                        && Up(ids, ancestor, p, m, r) && !Passes(ids, ancestor, r)
      ensures q == r
    {
      OneEnd(ids, ancestor, p, n, q, m, r);
    }
    forall n, k, q, m, r | Returns(ids, ancestor, p, n, k, q) && Up(ids, ancestor, p, m, r)
      ensures Passes(ids, ancestor, r)
    {
      LoopsNeverStop(ids, ancestor, p, n, k, q, m, r);
    }
  }

  /** What the audit may conclude: true or false only when the chain settles it. */
  ghost function Ancestry(ids: Identities, ancestor: int, p: int): Option<bool> {
    if Meets(ids, ancestor, p) then Some(true) else if Leaves(ids, ancestor, p) then Some(false) else None
  }

  /** Pointer chase with a set of visited pids. */
  method DescendantState(p: int, ancestor: int, ids: Identities) returns (r: Option<bool>)
    ensures r == Ancestry(ids, ancestor, p)
    ensures r.None? <==> Breaks(ids, ancestor, p) || Loops(ids, ancestor, p)
  {
    FatesExclude(ids, ancestor, p);
    var seen: set<int> := {};
    var current := p;
    ghost var steps: nat := 0;
    while current > 0
      invariant Up(ids, ancestor, p, steps, current)
      invariant seen <= ids.Keys
      invariant forall s :: s in seen ==> SeenBefore(ids, ancestor, p, s, current)
      decreases ids.Keys - seen
    {
      if current == ancestor { return Some(true); }
      if current == 1 { return Some(false); }
      if current in seen {
        ComesBack(ids, ancestor, p, current);
        return None;
      }
      if current !in ids {
        assert Breaks(ids, ancestor, p);
        return None;
      }
      forall s | s in seen + {current} ensures SeenBefore(ids, ancestor, p, s, ids[current].ppid) {
        SeenStaysBehind(ids, ancestor, p, s, current, steps, s in seen);
      }
      UpThenUp(ids, ancestor, p, steps, current, 1, ids[current].ppid);
      seen := seen + {current};
      current := ids[current].ppid;
      steps := steps + 1;
    }
    assert Leaves(ids, ancestor, p);
    return Some(false);
  }

  /** `s` was passed on the way from `p` to `current`. */
  ghost predicate SeenBefore(ids: Identities, ancestor: int, p: int, s: int, current: int) {
    exists n: nat, k: nat :: k > 0 && Up(ids, ancestor, p, n, s) && Up(ids, ancestor, s, k, current)
  }

  lemma ComesBack(ids: Identities, ancestor: int, p: int, s: int)
    requires SeenBefore(ids, ancestor, p, s, s)
    ensures Loops(ids, ancestor, p)
  {
    var n: nat, k: nat :| k > 0 && Up(ids, ancestor, p, n, s) && Up(ids, ancestor, s, k, s);
    assert Returns(ids, ancestor, p, n, k, s);
  }

  lemma SeenStaysBehind(ids: Identities, ancestor: int, p: int, s: int, current: int, steps: nat, earlier: bool)
    requires Passes(ids, ancestor, current) && Up(ids, ancestor, p, steps, current)
    requires if earlier then SeenBefore(ids, ancestor, p, s, current) else s == current
    ensures SeenBefore(ids, ancestor, p, s, ids[current].ppid)
  {
    var parent := ids[current].ppid;
    assert Up(ids, ancestor, parent, 0, parent);
    assert Up(ids, ancestor, current, 1, parent);
    if earlier {
      var n: nat, k: nat :| k > 0 && Up(ids, ancestor, p, n, s) && Up(ids, ancestor, s, k, current);
      UpThenUp(ids, ancestor, s, k, current, 1, parent);
    }
  }

  // ---------- learning more rows ----------

  /** `more` has the rows of `ids`, and possibly rows for further pids. */
  ghost predicate Extends(ids: Identities, more: Identities) {
    forall p :: p in ids ==> p in more && more[p] == ids[p]
  }

  lemma {:induction false} UpStays(ids: Identities, more: Identities, ancestor: int, p: int, n: nat, q: int)
    requires Extends(ids, more) && Up(ids, ancestor, p, n, q)
    ensures Up(more, ancestor, p, n, q)
    decreases n
  {
    if n > 0 {
      UpStays(ids, more, ancestor, ids[p].ppid, n - 1, q);
    }
  }

  /** Rows for absent pids never overturn a settled answer. */
  lemma AncestryIsMonotone(ids: Identities, more: Identities, ancestor: int, p: int)
    requires Extends(ids, more) && Ancestry(ids, ancestor, p).Some?
    ensures Ancestry(more, ancestor, p) == Ancestry(ids, ancestor, p)
  {
    FatesExclude(more, ancestor, p);
    if Meets(ids, ancestor, p) {
      var n :| Up(ids, ancestor, p, n, ancestor);
      UpStays(ids, more, ancestor, p, n, ancestor);
    } else {
      var n, q :| Up(ids, ancestor, p, n, q) && (q <= 0 || (q == 1 && q != ancestor));
      UpStays(ids, more, ancestor, p, n, q);
    }
  }

  // ---------- the audit ----------

  /** One directory of the process table: its identity, or how reading it failed. */
  datatype Scan = Identified(row: Row) | VanishedIdentity | UnreadableIdentity

  /** One environment: whether it holds the secret, or how reading it failed. */
  datatype Environ = Read(hasSecret: bool) | GoneBefore | IdentityChanged | Denied

  datatype Targets = Targets(modelPid: int, modelPgid: int, parentPid: int, onboardPid: int, evaluatorPid: int)

  function EnvironOf(env: map<int, Environ>, p: int): Environ { if p in env then env[p] else GoneBefore }

  ghost predicate InModelScope(ids: Identities, t: Targets, p: int) {
    p in ids && Ancestry(ids, t.modelPid, p) == Some(true) && ids[p].pgid == t.modelPgid
  }

  ghost predicate Matching(ids: Identities, env: map<int, Environ>, p: int) {
    p in ids && EnvironOf(env, p) == Read(true)
  }

  /** What a PASS promises: the model runs in its group, the secret was found, only in the model subtree and
      group and not in the three named processes; no live process hid its identity; and every live process
      whose environment could not be read is in model scope or provably outside the parent's tree. */
  ghost predicate Safe(ids: Identities, hidden: nat, env: map<int, Environ>, t: Targets) {
    && t.modelPid in ids && ids[t.modelPid].pgid == t.modelPgid
    && (exists p :: Matching(ids, env, p))
    && (forall p :: Matching(ids, env, p) ==> InModelScope(ids, t, p))
    && !Matching(ids, env, t.parentPid) && !Matching(ids, env, t.onboardPid) && !Matching(ids, env, t.evaluatorPid)
    && (forall p :: p in ids ==> EnvironOf(env, p) != IdentityChanged)
    && (forall p :: p in ids && EnvironOf(env, p) == Denied ==>
          InModelScope(ids, t, p) || Ancestry(ids, t.parentPid, p) == Some(false))
    && hidden == 0
  }

  /** The identities of a scan, later entries of a pid replacing earlier ones. */
  function IdentitiesOf(scans: seq<(int, Scan)>): Identities {
    if scans == [] then map[]
    else
      var (p, s) := scans[|scans| - 1];
      var before := IdentitiesOf(scans[..|scans| - 1]);
      if s.Identified? then before[p := s.row] else before
  }

  function HiddenOf(scans: seq<(int, Scan)>): nat {
    if scans == [] then 0
    else HiddenOf(scans[..|scans| - 1]) + (if scans[|scans| - 1].1.UnreadableIdentity? then 1 else 0)
  }

  /** Entry `i` is the last one that identifies the process. */
  predicate LastIdentified(scans: seq<(int, Scan)>, p: int, i: nat) {
    && i < |scans| && scans[i].0 == p && scans[i].1.Identified?
    && forall j :: i < j < |scans| ==> !(scans[j].0 == p && scans[j].1.Identified?)
  }

  /** A process is known exactly if some entry identifies it, by the row of the last such entry. */
  lemma {:induction false} IdentitiesExactly(scans: seq<(int, Scan)>, p: int)
    ensures p in IdentitiesOf(scans) ==>
              exists i :: 0 <= i < |scans| && LastIdentified(scans, p, i) && IdentitiesOf(scans)[p] == scans[i].1.row
    ensures p !in IdentitiesOf(scans) ==> forall i :: 0 <= i < |scans| ==> !(scans[i].0 == p && scans[i].1.Identified?)
  {
    if scans != [] {
      var n := |scans| - 1;
      IdentitiesExactly(scans[..n], p);
      if scans[n].0 == p && scans[n].1.Identified? {
        assert LastIdentified(scans, p, n);
      } else if p in IdentitiesOf(scans[..n]) {
        var i :| 0 <= i < n && LastIdentified(scans[..n], p, i) && IdentitiesOf(scans[..n])[p] == scans[..n][i].1.row;
        assert LastIdentified(scans, p, i);
      } else {
        forall i | 0 <= i < n ensures !(scans[i].0 == p && scans[i].1.Identified?) {
          assert scans[i] == scans[..n][i];
        }
      }
    }
  }

  function Unreadable(): ((int, Scan)) -> bool { (s: (int, Scan)) => s.1.UnreadableIdentity? }

  lemma {:induction false} HiddenIsNumber(scans: seq<(int, Scan)>)
    ensures HiddenOf(scans) == |Where(scans, Unreadable())|
  {
    if scans != [] {
      HiddenIsNumber(scans[..|scans| - 1]);
      OneMorePlace(scans, Unreadable());
    }
  }

  /** A PASS means that no live process kept its identity from the scan. */
  lemma PassMeansAllIdentified(scans: seq<(int, Scan)>, env: map<int, Environ>, t: Targets, i: nat)
    requires Safe(IdentitiesOf(scans), HiddenOf(scans), env, t) && i < |scans|
    ensures !scans[i].1.UnreadableIdentity?
  {
    HiddenIsNumber(scans);
    assert Where(scans, Unreadable()) == {};
    assert i !in Where(scans, Unreadable());
  }

  method ReadIdentities(scans: seq<(int, Scan)>) returns (ids: Identities, hidden: nat)
    ensures ids == IdentitiesOf(scans) && hidden == HiddenOf(scans)
  {
    ids, hidden := map[], 0;
    for i := 0 to |scans|
      invariant ids == IdentitiesOf(scans[..i]) && hidden == HiddenOf(scans[..i])
    {
      assert scans[..i + 1][..i] == scans[..i];
      match scans[i].1 {
        case Identified(row) => ids := ids[scans[i].0 := row];
        case VanishedIdentity =>
        case UnreadableIdentity => hidden := hidden + 1;
      }
    }
    assert scans[..|scans|] == scans;
  }

  /** The scan over all identified processes, in any order, and the final conjunction of checks. */
  method Audit(scans: seq<(int, Scan)>, env: map<int, Environ>, t: Targets) returns (pass: bool)
    ensures pass <==> Safe(IdentitiesOf(scans), HiddenOf(scans), env, t)
  {
    var ids, hidden := ReadIdentities(scans);
    var matching: set<int>, disallowed: set<int>, unapproved: set<int> := {}, {}, {};
    var rest := ids.Keys;
    while rest != {}
      invariant rest <= ids.Keys
      invariant forall p :: p in matching <==> p in ids && p !in rest && Matching(ids, env, p)
      invariant forall p :: p in disallowed <==> p in matching && !InModelScope(ids, t, p)
      invariant forall p :: p in unapproved <==> p !in rest && Unapproved(ids, env, t, p)
      decreases |rest|
    {
      assert (forall q :: q !in rest) ==> rest == {};
      var p :| p in rest;
      rest := rest - {p};
      var e := EnvironOf(env, p);
      if e == IdentityChanged {
        unapproved := unapproved + {p};
      } else if e == Denied {
        var model := DescendantState(p, t.modelPid, ids);
        var parent := DescendantState(p, t.parentPid, ids);
        if !(model == Some(true) && ids[p].pgid == t.modelPgid) && parent != Some(false) {
          unapproved := unapproved + {p};
        }
      } else if e == Read(true) {
        var model := DescendantState(p, t.modelPid, ids);
        matching := matching + {p};
        if !(model == Some(true) && ids[p].pgid == t.modelPgid) {
          disallowed := disallowed + {p};
        }
      }
    }
    pass := t.modelPid in ids && ids[t.modelPid].pgid == t.modelPgid && matching != {} && disallowed == {}
            && t.parentPid !in matching && t.onboardPid !in matching && t.evaluatorPid !in matching
            && unapproved == {} && hidden == 0;
    ChecksMeanSafe(ids, hidden, env, t, matching, disallowed, unapproved);
  }

  ghost predicate Unapproved(ids: Identities, env: map<int, Environ>, t: Targets, p: int) {
    p in ids &&
    (EnvironOf(env, p) == IdentityChanged ||
     (EnvironOf(env, p) == Denied && !InModelScope(ids, t, p) && Ancestry(ids, t.parentPid, p) != Some(false)))
  }

  lemma ChecksMeanSafe(ids: Identities, hidden: nat, env: map<int, Environ>, t: Targets,
                       matching: set<int>, disallowed: set<int>, unapproved: set<int>)
    requires forall p :: p in matching <==> Matching(ids, env, p)
    requires forall p :: p in disallowed <==> p in matching && !InModelScope(ids, t, p)
    requires forall p :: p in unapproved <==> Unapproved(ids, env, t, p)
    ensures Safe(ids, hidden, env, t) <==>
              t.modelPid in ids && ids[t.modelPid].pgid == t.modelPgid && matching != {} && disallowed == {}
              && t.parentPid !in matching && t.onboardPid !in matching && t.evaluatorPid !in matching
              && unapproved == {} && hidden == 0
  {
    assert (forall q :: q !in matching) ==> matching == {};
    assert (forall q :: q !in disallowed) ==> disallowed == {};
    assert (forall q :: q !in unapproved) ==> unapproved == {};
    if p :| p in matching { assert Matching(ids, env, p); }
    if p :| Matching(ids, env, p) { assert p in matching; }
    if disallowed == {} {
      forall p | Matching(ids, env, p) ensures InModelScope(ids, t, p) { assert p !in disallowed; }
    }
    if unapproved == {} {
      forall p | p in ids ensures !Unapproved(ids, env, t, p) { assert p !in unapproved; }
    }
    if p :| p in disallowed { assert Matching(ids, env, p) && !InModelScope(ids, t, p); }
    if p :| p in unapproved { assert Unapproved(ids, env, t, p); }
  }

  /** A PASS on the rows themselves: the secret was read somewhere, and wherever it was, the process belongs to
      the model's group and its parent chain meets the model; a process that denied its environment does too,
      or its parent chain leaves without meeting the parent. */
  lemma PassMeansConfined(scans: seq<(int, Scan)>, env: map<int, Environ>, t: Targets, p: int)
    requires Safe(IdentitiesOf(scans), HiddenOf(scans), env, t)
    ensures var ids := IdentitiesOf(scans);
            && t.modelPid in ids && ids[t.modelPid].pgid == t.modelPgid
            && (exists q :: q in ids && q in env && env[q] == Read(true))
            && (p in ids && p in env && env[p] == Read(true) ==>
                  ids[p].pgid == t.modelPgid && Meets(ids, t.modelPid, p)
                  && p != t.parentPid && p != t.onboardPid && p != t.evaluatorPid)
            && (p in ids && p in env && env[p] == Denied ==>
                  (ids[p].pgid == t.modelPgid && Meets(ids, t.modelPid, p)) || Leaves(ids, t.parentPid, p))
            && (p in ids && p in env ==> env[p] != IdentityChanged)
  {
    var ids := IdentitiesOf(scans);
    var q :| Matching(ids, env, q);
    assert q in env && env[q] == Read(true);
    if p in ids && p in env && env[p] == Read(true) { assert Matching(ids, env, p); }
    if p in ids && p in env { assert EnvironOf(env, p) == env[p]; }
  }

  /** A PASS stays true of the real process tree: whatever rows the scan missed, every process seen with the
      secret descends from the model, and every unreadable one is in model scope or outside the parent's tree. */
  lemma PassHoldsOfTheRealTree(scans: seq<(int, Scan)>, env: map<int, Environ>, t: Targets, tree: Identities, p: int)
    requires Safe(IdentitiesOf(scans), HiddenOf(scans), env, t) && Extends(IdentitiesOf(scans), tree)
    requires p in IdentitiesOf(scans)
    ensures EnvironOf(env, p) == Read(true) ==> InModelScope(tree, t, p)
    ensures EnvironOf(env, p) == Denied ==> InModelScope(tree, t, p) || Ancestry(tree, t.parentPid, p) == Some(false)
  {
    var ids := IdentitiesOf(scans);
    assert EnvironOf(env, p) == Read(true) ==> Matching(ids, env, p);
    if Ancestry(ids, t.modelPid, p).Some? { AncestryIsMonotone(ids, tree, t.modelPid, p); }
    if Ancestry(ids, t.parentPid, p).Some? { AncestryIsMonotone(ids, tree, t.parentPid, p); }
  }
}
