/**
 * ACOverlayManager (index.js:6-211): the registry of AC badges, updated in
 * place. Every method is proved to leave `overlays` equal to the matching
 * function of Registry applied to the old registry.
 */
module OverlayManager {
  import opened Wrappers
  import opened Registry

  const DefaultColor: string := "#ff0000"

  /** `color || '#ff0000'`: undefined, null and the empty string fall back to the default. */
  function ColorOrDefault(c: Option<string>): (r: string)
    ensures r != ""
    ensures c.Some? && c.value != "" ==> r == c.value
    ensures c.None? || c.value == "" ==> r == DefaultColor
  {
    if c.Some? && c.value != "" then c.value else DefaultColor
  }

  class ACOverlayManager {
    /** `this.overlays`: token id to badge. */
    var overlays: Overlays
    /** `this.container`: None before it is created, else the `--ac-badge-color` it carries. */
    var containerColor: Option<string>
    /** `this.color`. */
    var color: string

    /**
     * The colour is never empty, the container always carries the current
     * colour, and no badge is filed under the (falsy) empty id.
     */
    ghost predicate Valid()
      reads this
    {
      && color != ""
      && (containerColor.Some? ==> containerColor.value == color)
      && "" !in overlays
    }

    constructor ()
      ensures Valid()
      ensures overlays == map[] && containerColor == None && color == DefaultColor
    {
      overlays := map[];
      containerColor := None;
      color := DefaultColor;
    }

    /** `_ensureContainer` (index.js:56-67): creates the container, themed with the current colour, if absent. */
    method EnsureContainer()
      requires Valid()
      modifies this
      ensures Valid()
      ensures containerColor == Some(color)
      ensures overlays == old(overlays) && color == old(color)
    {
      if containerColor.None? {
        containerColor := Some(color);
      }
    }

    /** `setColor` (index.js:73-78). */
    method SetColor(c: Option<string>)
      requires Valid()
      modifies this
      ensures Valid()
      ensures color == ColorOrDefault(c)
      ensures containerColor == if old(containerColor).Some? then Some(color) else None
      ensures overlays == old(overlays)
    {
      color := ColorOrDefault(c);
      if containerColor.Some? {
        containerColor := Some(color);
      }
    }

    /** `removeToken` (index.js:147-153): drops only `tokenId`; nothing happens when it is absent. */
    method RemoveToken(tokenId: string)
      requires Valid()
      modifies this
      ensures Valid()
      ensures overlays == old(overlays) - {tokenId}
      ensures tokenId !in old(overlays) ==> overlays == old(overlays)
      ensures color == old(color) && containerColor == old(containerColor)
    {
      if tokenId in overlays {
        overlays := overlays - {tokenId};
      }
    }

    /** `clear` (index.js:207-210): empties the registry; the container stays. */
    method Clear()
      requires Valid()
      modifies this
      ensures Valid()
      ensures overlays == map[]
      ensures color == old(color) && containerColor == old(containerColor)
    {
      overlays := map[];
    }

    /**
     * `syncToken` (index.js:170-202): hides the badge of an invisible or
     * unrenderable token, otherwise shows it and re-reads a changed AC.
     */
    method SyncToken(t: Token)
      requires Valid()
      modifies this
      ensures Valid()
      ensures overlays == Synced(old(overlays), t)
      ensures color == old(color) && containerColor == old(containerColor)
    {
      if t.id.None? || t.id.value !in overlays {
        return;
      }
      var id := t.id.value;
      var badge := overlays[id];
      if !t.visible || !t.renderable {
        overlays := overlays[id := badge.(display := Hidden)];
        return;
      }
      badge := badge.(display := Flex);
      var ac := AcOf(t);
      if ac.Some? {
        var acStr := ac.value;
        if badge.ac != Some(acStr) {
          badge := badge.(ac := Some(acStr), writes := badge.writes + 1);
        }
      }
      overlays := overlays[id := badge];
    }

    /** `updateToken` (index.js:110-141). */
    method UpdateToken(t: Option<Token>)
      requires Valid()
      modifies this
      ensures Valid()
      ensures overlays == Updated(old(overlays), t)
      ensures color == old(color)
      ensures containerColor == if Shown(t) then Some(color) else old(containerColor)
    {
      if t.None? || t.value.actor.None? || t.value.id.None? || t.value.id.value == "" {
        return;
      }
      var token := t.value;
      if token.actor.value.actorType !in AllowedTypes {
        return;
      }
      var ac := token.actor.value.ac;
      if ac.None? {
        RemoveToken(token.id.value);
        return;
      }
      EnsureContainer();
      var id := token.id.value;
      var badge;
      if id in overlays {
        badge := overlays[id];
      } else {
        badge := NewBadge;
        overlays := overlays[id := badge];
      }
      var acStr := ac.value;
      if badge.ac != Some(acStr) {
        badge := badge.(ac := Some(acStr), writes := badge.writes + 1);
        overlays := overlays[id := badge];
      }
      SyncToken(token);
    }

    /**
     * `drawAll` (index.js:83-90); `placeables` is `canvas.tokens?.placeables`,
     * None when the canvas has no token layer.
     */
    method DrawAll(placeables: Option<seq<Token>>)
      requires Valid()
      modifies this
      ensures Valid()
      ensures overlays == if placeables.None? then map[] else UpdatedAll(map[], placeables.value)
      ensures color == old(color)
      ensures containerColor == if placeables.None? then old(containerColor) else Some(color)
    {
      Clear();
      if placeables.None? {
        return;
      }
      EnsureContainer();
      var ts := placeables.value;
      for i := 0 to |ts|
        invariant Valid()
        invariant overlays == UpdatedAll(map[], ts[..i])
        invariant color == old(color) && containerColor == Some(color)
      {
        assert ts[..i + 1][..i] == ts[..i];
        UpdateToken(Some(ts[i]));
      }
      assert ts[..|ts|] == ts;
    }

    /**
     * `updateActor` (index.js:96-104) once its delay has passed: `tokens` is
     * what `actor.getActiveTokens()` returns at that moment.
     */
    method UpdateActor(tokens: seq<Token>)
      requires Valid()
      modifies this
      ensures Valid()
      ensures overlays == UpdatedAll(old(overlays), tokens)
      ensures color == old(color)
      ensures containerColor ==
        if old(containerColor).Some? || ShownIds(tokens) != {} then Some(color) else None
    {
      for i := 0 to |tokens|
        invariant Valid()
        invariant overlays == UpdatedAll(old(overlays), tokens[..i])
        invariant color == old(color)
        invariant containerColor ==
          if old(containerColor).Some? || ShownIds(tokens[..i]) != {} then Some(color) else None
      {
        assert tokens[..i + 1][..i] == tokens[..i] && tokens[..i + 1][i] == tokens[i];
        UpdateToken(Some(tokens[i]));
      }
      assert tokens[..|tokens|] == tokens;
    }

    /**
     * `syncAll` (index.js:158-164); `canvasTokens` stands for
     * `canvas.tokens.get`, which resolves an id to the token carrying it.
     * No key is added or removed; ids that do not resolve are skipped.
     */
    method SyncAll(canvasTokens: map<string, Token>)
      requires Valid()
      requires forall k :: k in canvasTokens ==> canvasTokens[k].id == Some(k)
      modifies this
      ensures Valid()
      ensures overlays == SyncedAll(old(overlays), canvasTokens)
      ensures color == old(color) && containerColor == old(containerColor)
    {
      if |overlays| == 0 {
        assert overlays == SyncedAll(overlays, canvasTokens);
        return;
      }
      ghost var start := overlays;
      var pending := overlays.Keys;
      while pending != {}
        invariant Valid()
        invariant pending <= start.Keys && overlays.Keys == start.Keys
        invariant forall k :: k in pending ==> overlays[k] == start[k]
        invariant forall k :: k in start && k !in pending ==> overlays[k] == SyncedAll(start, canvasTokens)[k]
        invariant color == old(color) && containerColor == old(containerColor)
        decreases pending
      {
        var k :| k in pending;
        if k in canvasTokens {
          SyncToken(canvasTokens[k]);
        }
        pending := pending - {k};
      }
    }

    /**
     * `init` (index.js:16-50) without the hook registrations: nothing for a
     * non-Gamemaster; otherwise applies the stored colour (None when it is
     * unset or reading it throws) and draws at once if the canvas is ready.
     */
    method Init(isGM: bool, storedColor: Option<string>, canvasReady: bool, placeables: Option<seq<Token>>)
      requires Valid()
      modifies this
      ensures Valid()
      ensures !isGM ==> overlays == old(overlays) && color == old(color) && containerColor == old(containerColor)
      ensures isGM ==> color == ColorOrDefault(storedColor)
      ensures isGM && !canvasReady ==> overlays == old(overlays)
      ensures isGM && canvasReady && placeables.None? ==> overlays == map[]
      ensures isGM && canvasReady && placeables.Some? ==> overlays == UpdatedAll(map[], placeables.value)
      ensures isGM ==>
        containerColor == if (canvasReady && placeables.Some?) || old(containerColor).Some? then Some(color) else None
    {
      if !isGM {
        return;
      }
      SetColor(storedColor);
      if canvasReady {
        DrawAll(placeables);
      }
    }
  }
}
