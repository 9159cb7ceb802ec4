/**
 * The overlay registry of ACOverlayManager (index.js:6-211) seen as a value:
 * a map from token id to badge, and pure functions giving the registry after
 * each operation. The class in OverlayManager is proved to follow them.
 */
module Registry {
  import opened Wrappers

  /**
   * A token's actor: its type tag and its AC as the string `String(ac)`;
   * `ac` is None when `system.attributes.ac.value` is undefined or null.
   */
  datatype Actor = Actor(actorType: string, ac: Option<string>)

  /** A placed token as the manager reads it; `actor` is None when the token has none. */
  datatype Token = Token(id: Option<string>, actor: Option<Actor>, visible: bool, renderable: bool)

  /** `badge.style.display`: never set yet, `'flex'` or `'none'`. */
  datatype Display = Unset | Flex | Hidden

  /**
   * A badge: the cached `dataset.ac`, its display state and the number of
   * times its content (`innerHTML`) has been written.
   */
  datatype Badge = Badge(ac: Option<string>, display: Display, writes: nat)

  type Overlays = map<string, Badge>

  const AllowedTypes: set<string> := {"character", "npc"}

  /** A freshly created badge element: no `dataset.ac`, no display, no content. */
  const NewBadge: Badge := Badge(None, Unset, 0)

  /** The guards of `updateToken` (index.js:111-115); an empty id is falsy. */
  predicate Eligible(t: Option<Token>) {
    && t.Some?
    && t.value.actor.Some?
    && t.value.id.Some? && t.value.id.value != ""
    && t.value.actor.value.actorType in AllowedTypes
  }

  function IdOf(t: Option<Token>): string
    requires Eligible(t)
  {
    t.value.id.value
  }

  /** `token.actor?.system?.attributes?.ac?.value`, stringified. */
  function AcOf(t: Token): Option<string> {
    if t.actor.Some? then t.actor.value.ac else None
  }

  /** An eligible token whose AC is defined: the only kind that gets a badge. */
  predicate Shown(t: Option<Token>) {
    Eligible(t) && AcOf(t.value).Some?
  }

  predicate OnScreen(t: Token) {
    t.visible && t.renderable
  }

  /** The badge currently stored for `k`, or the one `updateToken` would create. */
  function Prior(m: Overlays, k: string): Badge {
    if k in m then m[k] else NewBadge
  }

  /** Writes `s` into the badge unless it already caches `s` (index.js:134-138, 185-189). */
  function WriteAc(b: Badge, s: string): Badge {
    if b.ac != Some(s) then b.(ac := Some(s), writes := b.writes + 1) else b
  }

  /** `syncToken` on one badge (index.js:175-190). */
  function SyncedBadge(b: Badge, t: Token): (r: Badge)
    ensures !OnScreen(t) ==> r == b.(display := Hidden)
    ensures OnScreen(t) ==> r.display == Flex
    ensures OnScreen(t) && AcOf(t).Some? ==> r.ac == AcOf(t)
    ensures !OnScreen(t) || AcOf(t).None? ==> r.ac == b.ac
    ensures r.writes == b.writes || r.writes == b.writes + 1
    ensures r.writes != b.writes <==> OnScreen(t) && AcOf(t).Some? && b.ac != AcOf(t)
  {
    if !OnScreen(t) then b.(display := Hidden)
    else
      var shown := b.(display := Flex);
      if AcOf(t).Some? then WriteAc(shown, AcOf(t).value) else shown
  }

  /** The registry after `syncToken(t)` (index.js:170-202): keys never change. */
  function Synced(m: Overlays, t: Token): (r: Overlays)
    ensures r.Keys == m.Keys
    ensures forall k :: k in m && t.id != Some(k) ==> r[k] == m[k]
    ensures t.id.Some? && t.id.value in m && !OnScreen(t) ==>
      r[t.id.value] == m[t.id.value].(display := Hidden)
    ensures t.id.Some? && t.id.value in m && OnScreen(t) ==> r[t.id.value].display == Flex
    ensures t.id.Some? && t.id.value in m && OnScreen(t) && AcOf(t).Some? ==> r[t.id.value].ac == AcOf(t)
  {
    if t.id.Some? && t.id.value in m then m[t.id.value := SyncedBadge(m[t.id.value], t)] else m
  }

  /**
   * The registry after `syncAll` (index.js:158-164), where `canvasTokens`
   * stands for `canvas.tokens.get`: every tracked id that resolves is
   * synchronised, ids that do not resolve are left as they are.
   */
  function SyncedAll(m: Overlays, canvasTokens: map<string, Token>): (r: Overlays)
    ensures r.Keys == m.Keys
    ensures forall k :: k in m && k !in canvasTokens ==> r[k] == m[k]
    ensures forall k :: k in m && k in canvasTokens && !OnScreen(canvasTokens[k]) ==>
      r[k] == m[k].(display := Hidden)
    ensures forall k :: k in m && k in canvasTokens && OnScreen(canvasTokens[k]) ==>
      r[k].display == Flex
    ensures forall k :: k in m && k in canvasTokens && OnScreen(canvasTokens[k]) && AcOf(canvasTokens[k]).Some? ==>
      r[k].ac == AcOf(canvasTokens[k])
    ensures forall k :: k in m ==>
      (r[k].writes != m[k].writes <==>
         k in canvasTokens && OnScreen(canvasTokens[k]) && AcOf(canvasTokens[k]).Some?
         && m[k].ac != AcOf(canvasTokens[k]))
  {
    map k | k in m :: if k in canvasTokens then SyncedBadge(m[k], canvasTokens[k]) else m[k]
  }

  /**
   * The registry after `updateToken(t)` (index.js:110-141). An ineligible
   * token changes nothing, a missing AC removes the entry, otherwise the
   * entry exists afterwards and shows the AC; no other entry is touched.
   */
  function Updated(m: Overlays, t: Option<Token>): (r: Overlays)
    ensures !Eligible(t) ==> r == m
    ensures Eligible(t) && !Shown(t) ==> r == m - {IdOf(t)}
    ensures Shown(t) ==> r.Keys == m.Keys + {IdOf(t)}
    ensures Shown(t) ==> r[IdOf(t)].ac == AcOf(t.value)
    ensures Shown(t) ==> r[IdOf(t)].display == if OnScreen(t.value) then Flex else Hidden
    ensures Shown(t) ==>
      r[IdOf(t)].writes == Prior(m, IdOf(t)).writes + (if Prior(m, IdOf(t)).ac == AcOf(t.value) then 0 else 1)
    ensures forall k :: k in m && (!Eligible(t) || k != IdOf(t)) ==> k in r && r[k] == m[k]
  {
    if !Eligible(t) then m
    else
      var id := IdOf(t);
      match AcOf(t.value)
      case None => m - {id}
      case Some(s) =>
        var written := m[id := WriteAc(Prior(m, id), s)];
        Synced(written, t.value)
  }

  /** The registry after `updateToken` on each token of `ts` in order. */
  function UpdatedAll(m: Overlays, ts: seq<Token>): Overlays
    decreases |ts|
  {
    if ts == [] then m else Updated(UpdatedAll(m, ts[..|ts| - 1]), Some(ts[|ts| - 1]))
  }

  /** The ids an eligible token of `ts` has. */
  function EligibleIds(ts: seq<Token>): set<string>
    decreases |ts|
  {
    if ts == [] then {}
    else
      var last := Some(ts[|ts| - 1]);
      EligibleIds(ts[..|ts| - 1]) + if Eligible(last) then {IdOf(last)} else {}
  }

  /** The ids of the tokens of `ts` that get a badge. */
  function ShownIds(ts: seq<Token>): set<string>
    decreases |ts|
  {
    if ts == [] then {}
    else
      var last := Some(ts[|ts| - 1]);
      ShownIds(ts[..|ts| - 1]) + if Shown(last) then {IdOf(last)} else {}
  }

  /** No two eligible tokens of `ts` share an id. */
  predicate DistinctIds(ts: seq<Token>) {
    forall i, j :: 0 <= i < j < |ts| && Eligible(Some(ts[i])) && Eligible(Some(ts[j])) ==>
      ts[i].id != ts[j].id
  }

  /** Updating twice with an unchanged token changes nothing the second time: no second content write. */
  lemma UpdatedIdempotent(m: Overlays, t: Option<Token>)
    ensures Updated(Updated(m, t), t) == Updated(m, t)
  {
  }

  /** The `syncToken` that ends `updateToken` leaves the registry as `updateToken` left it. */
  lemma SyncAfterUpdateIsNoOp(m: Overlays, t: Token)
    requires Eligible(Some(t))
    ensures Synced(Updated(m, Some(t)), t) == Updated(m, Some(t))
  {
  }

  /** A later `syncAll` that resolves the id to the same token writes no content either. */
  lemma SyncAllAfterUpdateNoWrite(m: Overlays, t: Token, canvasTokens: map<string, Token>)
    requires Shown(Some(t))
    requires IdOf(Some(t)) in canvasTokens && canvasTokens[IdOf(Some(t))] == t
    ensures SyncedAll(Updated(m, Some(t)), canvasTokens)[IdOf(Some(t))] == Updated(m, Some(t))[IdOf(Some(t))]
  {
  }

  /** Applying the tokens of `a` and then those of `b` is applying `a + b`. */
  lemma {:induction false} UpdatedAllAppend(m: Overlays, a: seq<Token>, b: seq<Token>)
    ensures UpdatedAll(m, a + b) == UpdatedAll(UpdatedAll(m, a), b)
    decreases |b|
  {
    if b == [] {
      assert a + b == a;
    } else {
      var b' := b[..|b| - 1];
      assert (a + b)[..|a + b| - 1] == a + b';
      UpdatedAllAppend(m, a, b');
    }
  }

  /** An id that no eligible token of `ts` carries keeps its entry, or its absence. */
  lemma {:induction false} UpdatedAllFrame(m: Overlays, ts: seq<Token>, k: string)
    requires k !in EligibleIds(ts)
    ensures k in UpdatedAll(m, ts) <==> k in m
    ensures k in m ==> UpdatedAll(m, ts)[k] == m[k]
    decreases |ts|
  {
    if ts != [] {
      UpdatedAllFrame(m, ts[..|ts| - 1], k);
    }
  }

  /** Every shown id is an eligible id. */
  lemma {:induction false} ShownIdsAreEligible(ts: seq<Token>)
    ensures ShownIds(ts) <= EligibleIds(ts)
    decreases |ts|
  {
    if ts != [] {
      ShownIdsAreEligible(ts[..|ts| - 1]);
    }
  }

  /** An id no eligible token of `ts` carries is not among `EligibleIds(ts)`. */
  lemma {:induction false} NotAnEligibleId(ts: seq<Token>, k: string)
    requires forall i :: 0 <= i < |ts| && Eligible(Some(ts[i])) ==> ts[i].id != Some(k)
    ensures k !in EligibleIds(ts)
    decreases |ts|
  {
    if ts != [] {
      NotAnEligibleId(ts[..|ts| - 1], k);
    }
  }

  /**
   * With distinct ids, updating with every token of `ts` drops the ids of the
   * eligible tokens and keeps exactly those whose AC is defined.
   */
  lemma {:induction false} UpdatedAllKeys(m: Overlays, ts: seq<Token>)
    requires DistinctIds(ts)
    ensures UpdatedAll(m, ts).Keys == (m.Keys - EligibleIds(ts)) + ShownIds(ts)
    decreases |ts|
  {
    if ts != [] {
      var init := ts[..|ts| - 1];
      var last := Some(ts[|ts| - 1]);
      assert DistinctIds(init);
      UpdatedAllKeys(m, init);
      if Eligible(last) {
        NotAnEligibleId(init, IdOf(last));
        ShownIdsAreEligible(init);
      }
    }
  }

  /** `drawAll`: from an empty registry the keys are exactly the ids of the shown tokens. */
  lemma DrawnKeys(ts: seq<Token>)
    requires DistinctIds(ts)
    ensures UpdatedAll(map[], ts).Keys == ShownIds(ts)
  {
    UpdatedAllKeys(map[], ts);
  }

  /** `drawAll`: each shown token's badge shows that token's AC. */
  lemma DrawnBadgeShowsAc(ts: seq<Token>, i: nat)
    requires DistinctIds(ts)
    requires i < |ts| && Shown(Some(ts[i]))
    ensures IdOf(Some(ts[i])) in UpdatedAll(map[], ts)
    ensures UpdatedAll(map[], ts)[IdOf(Some(ts[i]))].ac == AcOf(ts[i])
  {
    LastWriterShowsAc(map[], ts, i);
  }

  /** A shown token's AC survives the tokens after it when none of them carries its id. */
  lemma {:induction false} LastWriterShowsAc(m: Overlays, ts: seq<Token>, i: nat)
    requires i < |ts| && Shown(Some(ts[i]))
    requires forall j :: i < j < |ts| && Eligible(Some(ts[j])) ==> ts[j].id != ts[i].id
    ensures IdOf(Some(ts[i])) in UpdatedAll(m, ts)
    ensures UpdatedAll(m, ts)[IdOf(Some(ts[i]))].ac == AcOf(ts[i])
  {
    var id := IdOf(Some(ts[i]));
    var a, b := ts[..i + 1], ts[i + 1..];
    assert a + b == ts;
    UpdatedAllAppend(m, a, b);
    assert a[..|a| - 1] == ts[..i];
    var mid := UpdatedAll(m, a);
    assert mid == Updated(UpdatedAll(m, ts[..i]), Some(ts[i]));
    forall j | 0 <= j < |b| && Eligible(Some(b[j])) ensures b[j].id != Some(id) {
      assert b[j] == ts[i + 1 + j];
    }
    NotAnEligibleId(b, id);
    UpdatedAllFrame(mid, b, id);
  }

  /** The zoom factor applied to a badge, `Math.max(0.5, Math.min(scale, 1.2))` (index.js:200-201). */
  function BadgeScale(zoom: real): (r: real)
    ensures 0.5 <= r <= 1.2
    ensures 0.5 <= zoom <= 1.2 ==> r == zoom
    ensures zoom < 0.5 ==> r == 0.5
    ensures zoom > 1.2 ==> r == 1.2
  {
    if zoom > 1.2 then 1.2 else if zoom < 0.5 then 0.5 else zoom
  }
}
