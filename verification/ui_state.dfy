/**
 * The global toast store and loading overlay of the frontend: a counter of
 * outstanding loads, the visible toasts, and the toasts held back while the
 * overlay is up.  The reactive wrappers are plain fields here.
 */
module UiState {
  import opened Wrappers

  /** A toast as the store keeps it; the action callback and the auto-dismiss timer are not modelled. */
  datatype Toast = Toast(id: nat, kind: string, message: string, title: string, actionLabel: Option<string>)

  /** The fields `push` reads from its options object; `None` is a field left undefined. */
  datatype PushOptions = PushOptions(kind: Option<string>, message: Option<string>, title: Option<string>, actionLabel: Option<string>)

  /** A string argument that is neither undefined nor empty. */
  predicate Truthy(s: Option<string>) {
    s.Some? && s.value != []
  }

  /** `s || fallback`. */
  function OrElse(s: Option<string>, fallback: string): string {
    if Truthy(s) then s.value else fallback
  }

  /** A destructuring default: applies only when the field is undefined. */
  function Given(s: Option<string>, fallback: string): string {
    if s.Some? then s.value else fallback
  }

  /** The toast `pushToast` builds (frontend/src/services/ui.js, line 12). */
  function PlainToast(id: nat, kind: Option<string>, message: Option<string>, title: Option<string>): (t: Toast)
    ensures t.id == id && t.actionLabel.None? && t.kind != []
    ensures Truthy(kind) ==> t.kind == kind.value
    ensures t.kind == "info" <==> !Truthy(kind) || kind.value == "info"
    ensures Truthy(message) ==> t.message == message.value
    ensures !Truthy(message) ==> t.message == ""
    ensures Truthy(title) ==> t.title == title.value
    ensures !Truthy(title) ==> (t.title == "Error" <==> kind == Some("error")) && (t.title == "" <==> kind != Some("error"))
  {
    Toast(id, OrElse(kind, "info"), OrElse(message, ""), OrElse(title, if kind == Some("error") then "Error" else ""), None)
  }

  /** The toast `push` builds (lines 34-36): defaults only for fields left undefined, and `{}` for no options. */
  function ActionToast(id: nat, opts: Option<PushOptions>): (t: Toast)
    ensures t.id == id
    ensures opts.None? ==> t == Toast(id, "info", "", "", None)
    ensures opts.Some? && opts.value.kind.Some? ==> t.kind == opts.value.kind.value
    ensures opts.Some? && opts.value.kind.None? ==> t.kind == "info"
    ensures opts.Some? && opts.value.message.Some? ==> t.message == opts.value.message.value
    ensures opts.Some? && opts.value.message.None? ==> t.message == ""
    ensures opts.Some? && opts.value.title.Some? ==> t.title == opts.value.title.value
    ensures opts.Some? && opts.value.title.None? ==> t.title == ""
    ensures opts.Some? ==> t.actionLabel == opts.value.actionLabel
  {
    var o := if opts.Some? then opts.value else PushOptions(None, None, None, None);
    Toast(id, Given(o.kind, "info"), Given(o.message, ""), Given(o.title, ""), o.actionLabel)
  }

  /** An empty type is replaced by `pushToast` and kept by `push`. */
  lemma EmptyKindDefaults(id: nat)
    ensures PlainToast(id, Some(""), None, None).kind == "info"
    ensures ActionToast(id, Some(PushOptions(Some(""), None, None, None))).kind == ""
  {
  }

  /** `Math.max(0, Math.min(100, p))`. */
  function ClampPercent(p: int): (r: int)
    ensures 0 <= r <= 100
    ensures 0 <= p <= 100 ==> r == p
    ensures p < 0 ==> r == 0
    ensures p > 100 ==> r == 100
  {
    if p < 0 then 0 else if p > 100 then 100 else p
  }

  /** Ids rise strictly from front to back. */
  ghost predicate IdsIncreasing(s: seq<Toast>) {
    forall i, j :: 0 <= i < j < |s| ==> s[i].id < s[j].id
  }

  /** Every id is below `bound`. */
  ghost predicate IdsBelow(s: seq<Toast>, bound: nat) {
    forall i :: 0 <= i < |s| ==> s[i].id < bound
  }

  /** `findIndex((t) => t.id === id)`. */
  function IndexOfId(s: seq<Toast>, id: nat): (i: int)
    ensures -1 <= i < |s|
    ensures i >= 0 ==> s[i].id == id && forall j :: 0 <= j < i ==> s[j].id != id
    ensures i == -1 ==> forall j :: 0 <= j < |s| ==> s[j].id != id
  {
    if s == [] then -1
    else if s[0].id == id then 0
    else
      var k := IndexOfId(s[1..], id);
      if k == -1 then -1 else k + 1
  }

  /** `splice(i, 1)`. */
  function RemoveAt(s: seq<Toast>, i: nat): (r: seq<Toast>)
    requires i < |s|
    ensures |r| == |s| - 1
  {
    s[..i] + s[i + 1..]
  }

  /** The toasts whose id differs from `id`, in their order. */
  function WithoutId(s: seq<Toast>, id: nat): (r: seq<Toast>)
    ensures |r| <= |s|
  {
    if s == [] then [] else (if s[0].id == id then [] else [s[0]]) + WithoutId(s[1..], id)
  }

  /** Exactly the toasts with a different id are kept. */
  lemma {:induction false} WithoutIdMembers(s: seq<Toast>, id: nat, t: Toast)
    ensures t in WithoutId(s, id) <==> t in s && t.id != id
  {
    if s != [] {
      WithoutIdMembers(s[1..], id, t);
      assert s == [s[0]] + s[1..];
    }
  }

  lemma {:induction false} WithoutAbsentId(s: seq<Toast>, id: nat)
    requires forall j :: 0 <= j < |s| ==> s[j].id != id
    ensures WithoutId(s, id) == s
  {
    if s != [] {
      WithoutAbsentId(s[1..], id);
    }
  }

  lemma IdsIncreasingTail(s: seq<Toast>)
    requires s != [] && IdsIncreasing(s)
    ensures IdsIncreasing(s[1..])
    ensures forall j :: 0 <= j < |s[1..]| ==> s[1..][j].id > s[0].id
  {
    forall i, j | 0 <= i < j < |s[1..]|
      ensures s[1..][i].id < s[1..][j].id
    {
      assert s[1..][i] == s[i + 1] && s[1..][j] == s[j + 1];
    }
    forall j | 0 <= j < |s[1..]|
      ensures s[1..][j].id > s[0].id
    {
      assert s[1..][j] == s[j + 1];
    }
  }

  /** Removing the first match is filtering by id. */
  ghost predicate FirstMatchIsAll(s: seq<Toast>, id: nat) {
    (IndexOfId(s, id) == -1 ==> WithoutId(s, id) == s)
    && (IndexOfId(s, id) >= 0 ==> WithoutId(s, id) == RemoveAt(s, IndexOfId(s, id)))
  }

  lemma HeadMatch(s: seq<Toast>, id: nat)
    requires s != [] && s[0].id == id
    requires forall j :: 0 <= j < |s[1..]| ==> s[1..][j].id > s[0].id
    ensures FirstMatchIsAll(s, id)
  {
    WithoutAbsentId(s[1..], id);
    assert WithoutId(s, id) == s[1..];
    assert IndexOfId(s, id) == 0;
    assert RemoveAt(s, 0) == s[1..];
  }

  lemma SkipHead(s: seq<Toast>, id: nat)
    requires s != [] && s[0].id != id && FirstMatchIsAll(s[1..], id)
    ensures FirstMatchIsAll(s, id)
  {
    if IndexOfId(s[1..], id) == -1 {
      SkipHeadAbsent(s, id);
    } else {
      SkipHeadFound(s, id);
    }
  }

  lemma SkipHeadAbsent(s: seq<Toast>, id: nat)
    requires s != [] && s[0].id != id
    requires IndexOfId(s[1..], id) == -1 && WithoutId(s[1..], id) == s[1..]
    ensures IndexOfId(s, id) == -1 && WithoutId(s, id) == s
  {
    assert WithoutId(s, id) == [s[0]] + s[1..];
  }

  lemma SkipHeadFound(s: seq<Toast>, id: nat)
    requires s != [] && s[0].id != id
    requires 0 <= IndexOfId(s[1..], id) && WithoutId(s[1..], id) == RemoveAt(s[1..], IndexOfId(s[1..], id))
    ensures IndexOfId(s, id) == IndexOfId(s[1..], id) + 1
    ensures WithoutId(s, id) == RemoveAt(s, IndexOfId(s, id))
  {
    var k := IndexOfId(s[1..], id);
    assert WithoutId(s, id) == [s[0]] + RemoveAt(s[1..], k);
    assert RemoveAt(s, k + 1) == [s[0]] + RemoveAt(s[1..], k);
  }

  /** With unique ids, removing the first match removes every toast with that id. */
  lemma {:induction false} RemoveFirstMatch(s: seq<Toast>, id: nat)
    requires IdsIncreasing(s)
    ensures IndexOfId(s, id) == -1 ==> WithoutId(s, id) == s
    ensures IndexOfId(s, id) >= 0 ==> WithoutId(s, id) == RemoveAt(s, IndexOfId(s, id))
  {
    if s != [] {
      IdsIncreasingTail(s);
      if s[0].id == id {
        HeadMatch(s, id);
      } else {
        RemoveFirstMatch(s[1..], id);
        SkipHead(s, id);
      }
    }
  }

  /** Removing one entry keeps the ids increasing and below their bound. */
  lemma RemoveAtKeepsIds(s: seq<Toast>, i: nat, bound: nat)
    requires i < |s| && IdsIncreasing(s) && IdsBelow(s, bound)
    ensures IdsIncreasing(RemoveAt(s, i)) && IdsBelow(RemoveAt(s, i), bound)
  {
    var r := RemoveAt(s, i);
    forall a, b | 0 <= a < b < |r|
      ensures r[a].id < r[b].id
    {
      var a' := if a < i then a else a + 1;
      var b' := if b < i then b else b + 1;
      assert r[a] == s[a'] && r[b] == s[b'];
    }
  }

  /** A toast with the next id may go at the end. */
  lemma AppendFresh(s: seq<Toast>, t: Toast)
    requires IdsIncreasing(s) && IdsBelow(s, t.id)
    ensures IdsIncreasing(s + [t]) && IdsBelow(s + [t], t.id + 1)
  {
  }

  /** With the ids increasing over both lists, an id in the visible list is not pending. */
  lemma VisibleNotPending(a: seq<Toast>, b: seq<Toast>, i: nat)
    requires IdsIncreasing(a + b) && i < |a|
    ensures forall j :: 0 <= j < |b| ==> b[j].id != a[i].id
  {
    forall j | 0 <= j < |b|
      ensures b[j].id != a[i].id
    {
      assert (a + b)[i] == a[i] && (a + b)[|a| + j] == b[j];
    }
  }

  /**
   * Where a new toast goes (lines 16-21 and 45-50): behind the pending ones
   * while loading, behind the visible ones otherwise.
   */
  function Queued(toasts: seq<Toast>, pending: seq<Toast>, loadingCount: nat, t: Toast): (seq<Toast>, seq<Toast>) {
    if loadingCount > 0 then (toasts, pending + [t]) else (toasts + [t], pending)
  }

  /**
   * Whichever list a toast joins, the visible toasts followed by the pending
   * ones are the earlier toasts followed by the new one, so a later flush
   * shows toasts in the order they were made.
   */
  lemma QueuedInOrder(toasts: seq<Toast>, pending: seq<Toast>, loadingCount: nat, t: Toast)
    requires loadingCount == 0 ==> pending == []
    ensures Queued(toasts, pending, loadingCount, t).0 + Queued(toasts, pending, loadingCount, t).1 == toasts + pending + [t]
    ensures loadingCount > 0 ==> Queued(toasts, pending, loadingCount, t).0 == toasts
  {
    if loadingCount == 0 {
      assert toasts + [t] + [] == toasts + [] + [t];
    }
  }

  class Ui {
    var toasts: seq<Toast>
    var pendingToasts: seq<Toast>
    var nextId: nat
    var loadingCount: nat
    var loadingMessage: string
    var loadingProgress: Option<int>

    /**
     * Nothing is pending unless the overlay is up, and ids rise strictly
     * across the visible toasts and then the pending ones, all below `nextId`.
     */
    ghost predicate Valid()
      reads this
    {
      nextId >= 1
      && (loadingCount == 0 ==> pendingToasts == [])
      && IdsIncreasing(toasts + pendingToasts)
      && IdsBelow(toasts + pendingToasts, nextId)
    }

    /** The module's initial state (lines 4-8 and 80-82). */
    constructor()
      ensures Valid()
      ensures toasts == [] && pendingToasts == [] && nextId == 1
      ensures loadingCount == 0 && loadingMessage == "" && loadingProgress.None?
    {
      toasts := [];
      pendingToasts := [];
      nextId := 1;
      loadingCount := 0;
      loadingMessage := "";
      loadingProgress := None;
    }

    /** Shows `t` now, or holds it back while loading. */
    method Deliver(t: Toast)
      requires Valid() && t.id + 1 == nextId
      requires IdsBelow(toasts + pendingToasts, t.id)
      modifies this
      ensures Valid()
      ensures (toasts, pendingToasts) == Queued(old(toasts), old(pendingToasts), old(loadingCount), t)
      ensures nextId == old(nextId) && loadingCount == old(loadingCount)
      ensures loadingMessage == old(loadingMessage) && loadingProgress == old(loadingProgress)
    {
      QueuedInOrder(toasts, pendingToasts, loadingCount, t);
      AppendFresh(toasts + pendingToasts, t);
      if loadingCount > 0 {
        pendingToasts := pendingToasts + [t];
      } else {
        toasts := toasts + [t];
      }
    }

    /** `pushToast(type, message, title)` (lines 10-30). */
    method PushToast(kind: Option<string>, message: Option<string>, title: Option<string>) returns (id: nat)
      requires Valid()
      modifies this
      ensures Valid()
      ensures id == old(nextId) && nextId == old(nextId) + 1
      ensures (toasts, pendingToasts) == Queued(old(toasts), old(pendingToasts), old(loadingCount), PlainToast(id, kind, message, title))
      ensures loadingCount == old(loadingCount) && loadingMessage == old(loadingMessage) && loadingProgress == old(loadingProgress)
    {
      id := nextId;
      nextId := nextId + 1;
      Deliver(PlainToast(id, kind, message, title));
    }

    /** `push(opts)` (lines 33-53). */
    method Push(opts: Option<PushOptions>) returns (id: nat)
      requires Valid()
      modifies this
      ensures Valid()
      ensures id == old(nextId) && nextId == old(nextId) + 1
      ensures (toasts, pendingToasts) == Queued(old(toasts), old(pendingToasts), old(loadingCount), ActionToast(id, opts))
      ensures loadingCount == old(loadingCount) && loadingMessage == old(loadingMessage) && loadingProgress == old(loadingProgress)
    {
      id := nextId;
      nextId := nextId + 1;
      Deliver(ActionToast(id, opts));
    }

    /** `success(message, title = "Success")` (lines 55-57). */
    method Success(message: Option<string>, title: Option<string>) returns (id: nat)
      requires Valid()
      modifies this
      ensures Valid()
      ensures id == old(nextId) && nextId == old(nextId) + 1
      ensures (toasts, pendingToasts) == Queued(old(toasts), old(pendingToasts), old(loadingCount),
                                                 PlainToast(id, Some("success"), message, if title.None? then Some("Success") else title))
      ensures loadingCount == old(loadingCount) && loadingMessage == old(loadingMessage) && loadingProgress == old(loadingProgress)
    {
      id := PushToast(Some("success"), message, if title.None? then Some("Success") else title);
    }

    /** `error(message, title = "Error")` (lines 58-60). */
    method Error(message: Option<string>, title: Option<string>) returns (id: nat)
      requires Valid()
      modifies this
      ensures Valid()
      ensures id == old(nextId) && nextId == old(nextId) + 1
      ensures (toasts, pendingToasts) == Queued(old(toasts), old(pendingToasts), old(loadingCount),
                                                 PlainToast(id, Some("error"), message, if title.None? then Some("Error") else title))
      ensures loadingCount == old(loadingCount) && loadingMessage == old(loadingMessage) && loadingProgress == old(loadingProgress)
    {
      id := PushToast(Some("error"), message, if title.None? then Some("Error") else title);
    }

    /** `info(message, title = "Notice")` (lines 61-63). */
    method Info(message: Option<string>, title: Option<string>) returns (id: nat)
      requires Valid()
      modifies this
      ensures Valid()
      ensures id == old(nextId) && nextId == old(nextId) + 1
      ensures (toasts, pendingToasts) == Queued(old(toasts), old(pendingToasts), old(loadingCount),
                                                 PlainToast(id, Some("info"), message, if title.None? then Some("Notice") else title))
      ensures loadingCount == old(loadingCount) && loadingMessage == old(loadingMessage) && loadingProgress == old(loadingProgress)
    {
      id := PushToast(Some("info"), message, if title.None? then Some("Notice") else title);
    }

    /**
     * `dismiss(id)` (lines 65-77): the first visible toast with the id goes,
     * and only when there is none, the first pending one.  Because ids are
     * unique, that is the same as dropping the id from both lists.
     */
    method Dismiss(id: nat)
      requires Valid()
      modifies this
      ensures Valid()
      ensures IndexOfId(old(toasts), id) >= 0 ==>
                toasts == RemoveAt(old(toasts), IndexOfId(old(toasts), id)) && pendingToasts == old(pendingToasts)
      ensures IndexOfId(old(toasts), id) == -1 && IndexOfId(old(pendingToasts), id) >= 0 ==>
                toasts == old(toasts) && pendingToasts == RemoveAt(old(pendingToasts), IndexOfId(old(pendingToasts), id))
      ensures IndexOfId(old(toasts), id) == -1 && IndexOfId(old(pendingToasts), id) == -1 ==>
                toasts == old(toasts) && pendingToasts == old(pendingToasts)
      ensures toasts == WithoutId(old(toasts), id) && pendingToasts == WithoutId(old(pendingToasts), id)
      ensures nextId == old(nextId) && loadingCount == old(loadingCount)
      ensures loadingMessage == old(loadingMessage) && loadingProgress == old(loadingProgress)
    {
      var idx := IndexOfId(toasts, id);
      if idx != -1 {
        DismissVisible(toasts, pendingToasts, id, nextId);
        toasts := RemoveAt(toasts, idx);
        return;
      }
      var pIdx := IndexOfId(pendingToasts, id);
      DismissPending(toasts, pendingToasts, id, nextId);
      if pIdx != -1 {
        pendingToasts := RemoveAt(pendingToasts, pIdx);
      }
    }

    /** `showLoading(msg)` (lines 86-90). */
    method ShowLoading(msg: Option<string>)
      requires Valid()
      modifies this
      ensures Valid()
      ensures loadingCount == old(loadingCount) + 1
      ensures loadingMessage == OrElse(msg, old(loadingMessage))
      ensures loadingProgress.None?
      ensures toasts == old(toasts) && pendingToasts == old(pendingToasts) && nextId == old(nextId)
    {
      loadingCount := loadingCount + 1;
      if Truthy(msg) {
        loadingMessage := msg.value;
      }
      loadingProgress := None;
    }

    /**
     * `hideLoading()` (lines 92-111): the count drops by one but not below
     * zero; when it reaches zero the message and progress reset and every
     * pending toast moves, in order, behind the visible ones.
     */
    method HideLoading()
      requires Valid()
      modifies this
      ensures Valid()
      ensures loadingCount == if old(loadingCount) > 0 then old(loadingCount) - 1 else 0
      ensures loadingCount > 0 ==>
                toasts == old(toasts) && pendingToasts == old(pendingToasts)
                && loadingMessage == old(loadingMessage) && loadingProgress == old(loadingProgress)
      ensures loadingCount == 0 ==>
                toasts == old(toasts) + old(pendingToasts) && pendingToasts == []
                && loadingMessage == "" && loadingProgress.None?
      ensures nextId == old(nextId)
    {
      loadingCount := if loadingCount > 0 then loadingCount - 1 else 0;
      if loadingCount == 0 {
        loadingMessage := "";
        loadingProgress := None;
        if |pendingToasts| > 0 {
          ghost var shown := toasts;
          var i := 0;
          while i < |pendingToasts|
            invariant 0 <= i <= |pendingToasts|
            invariant toasts == shown + pendingToasts[..i]
            invariant pendingToasts == old(pendingToasts) && shown == old(toasts)
            invariant nextId == old(nextId) && loadingCount == 0
            invariant loadingMessage == "" && loadingProgress.None?
          {
            toasts := toasts + [pendingToasts[i]];
            i := i + 1;
          }
          assert toasts == shown + pendingToasts;
          pendingToasts := [];
          assert toasts + pendingToasts == old(toasts) + old(pendingToasts);
        }
      }
    }

    /** `setLoadingProgress(p)` (lines 113-116), over integers. */
    method SetLoadingProgress(p: Option<int>)
      requires Valid()
      modifies this
      ensures Valid()
      ensures loadingProgress == if p.None? then None else Some(ClampPercent(p.value))
      ensures p.Some? ==> 0 <= loadingProgress.value <= 100
      ensures toasts == old(toasts) && pendingToasts == old(pendingToasts) && nextId == old(nextId)
      ensures loadingCount == old(loadingCount) && loadingMessage == old(loadingMessage)
    {
      loadingProgress := if p.None? then None else Some(ClampPercent(p.value));
    }
  }

  /**
   * A toast raised while the overlay is up stays out of sight until the
   * overlay goes, and then shows; nested loads hold it until the last ends.
   */
  method ToastDeferredUntilLoadingEnds() returns (whileLoading: seq<Toast>, afterInner: seq<Toast>, afterOuter: seq<Toast>)
    ensures whileLoading == [] && afterInner == []
    ensures afterOuter == [PlainToast(1, Some("success"), Some("Saved"), Some("Success"))]
  {
    var ui := new Ui();
    ui.ShowLoading(Some("Saving"));
    ui.ShowLoading(None);
    var id := ui.Success(Some("Saved"), None);
    whileLoading := ui.toasts;
    ui.HideLoading();
    afterInner := ui.toasts;
    ui.HideLoading();
    afterOuter := ui.toasts;
  }

  /** Dismissing a visible toast keeps the ids in order and filters both lists by the id. */
  lemma DismissVisible(a: seq<Toast>, b: seq<Toast>, id: nat, bound: nat)
    requires IdsIncreasing(a + b) && IdsBelow(a + b, bound) && IndexOfId(a, id) >= 0
    ensures IdsIncreasing(RemoveAt(a, IndexOfId(a, id)) + b) && IdsBelow(RemoveAt(a, IndexOfId(a, id)) + b, bound)
    ensures WithoutId(a, id) == RemoveAt(a, IndexOfId(a, id)) && WithoutId(b, id) == b
  {
    var i := IndexOfId(a, id);
    IdsSplit(a, b);
    RemoveFirstMatch(a, id);
    VisibleNotPending(a, b, i);
    WithoutAbsentId(b, id);
    RemoveAtKeepsIds(a + b, i, bound);
    RemoveAtLeft(a, b, i);
  }

  lemma RemoveAtLeft(a: seq<Toast>, b: seq<Toast>, i: nat)
    requires i < |a|
    ensures RemoveAt(a + b, i) == RemoveAt(a, i) + b
  {
    assert (a + b)[..i] == a[..i];
    assert (a + b)[i + 1..] == a[i + 1..] + b;
  }

  /** Dismissing an id that is not visible touches only the pending list, and filters it by the id. */
  lemma DismissPending(a: seq<Toast>, b: seq<Toast>, id: nat, bound: nat)
    requires IdsIncreasing(a + b) && IdsBelow(a + b, bound) && IndexOfId(a, id) == -1
    ensures IndexOfId(b, id) >= 0 ==>
              IdsIncreasing(a + RemoveAt(b, IndexOfId(b, id))) && IdsBelow(a + RemoveAt(b, IndexOfId(b, id)), bound)
              && WithoutId(b, id) == RemoveAt(b, IndexOfId(b, id))
    ensures IndexOfId(b, id) == -1 ==> WithoutId(b, id) == b
    ensures WithoutId(a, id) == a
  {
    IdsSplit(a, b);
    RemoveFirstMatch(b, id);
    WithoutAbsentId(a, id);
    if IndexOfId(b, id) >= 0 {
      RemovePendingKeepsIds(a, b, IndexOfId(b, id), bound);
    }
  }

  lemma RemovePendingKeepsIds(a: seq<Toast>, b: seq<Toast>, j: nat, bound: nat)
    requires IdsIncreasing(a + b) && IdsBelow(a + b, bound) && j < |b|
    ensures IdsIncreasing(a + RemoveAt(b, j)) && IdsBelow(a + RemoveAt(b, j), bound)
  {
    RemoveAtKeepsIds(a + b, |a| + j, bound);
    RemoveAtRight(a, b, j);
  }

  lemma RemoveAtRight(a: seq<Toast>, b: seq<Toast>, j: nat)
    requires j < |b|
    ensures RemoveAt(a + b, |a| + j) == a + RemoveAt(b, j)
  {
    assert (a + b)[..|a| + j] == a + b[..j];
    assert (a + b)[|a| + j + 1..] == b[j + 1..];
  }

  /** Increasing ids over both lists are increasing over each, and every visible id is below every pending one. */
  lemma IdsSplit(a: seq<Toast>, b: seq<Toast>)
    requires IdsIncreasing(a + b)
    ensures IdsIncreasing(a) && IdsIncreasing(b)
  {
    forall i, j | 0 <= i < j < |a|
      ensures a[i].id < a[j].id
    {
      assert (a + b)[i] == a[i] && (a + b)[j] == a[j];
    }
    forall i, j | 0 <= i < j < |b|
      ensures b[i].id < b[j].id
    {
      assert (a + b)[|a| + i] == b[i] && (a + b)[|a| + j] == b[j];
    }
  }
}
