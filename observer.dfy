/**
 * The game-page synchroniser of frontend/injection/observer.ts.
 *
 * The module-level variables `currentGameName`, `processingGameName`,
 * `currentDoc` and `observer` are the fields of `ObserverState`; the backend
 * calls that have been issued and not yet answered are its field `pending`,
 * and the arrival of an answer is the step `ReplyArrives`. Each step is
 * proved equal to a function on values (`PassOutcome`, `ReplyOutcome`,
 * `RefreshOutcome`), and the properties of the synchroniser are lemmas
 * about those functions.
 */
module Observer {
  import opened Wrappers
  import opened JsString
  import opened Dom
  import opened Display

  /**
   * `detectGameName`: the trimmed text of the first element matching the
   * name selector; none when there is no such element, its text is null,
   * or the text is blank.
   */
  function DetectGameName(labels: seq<Option<string>>): (r: Option<string>)
    ensures r.None? <==> |labels| == 0 || labels[0].None? || AllSpace(labels[0].value)
    ensures r.Some? ==> r.value == Trim(labels[0].value) && r.value != "" && Trimmed(r.value)
  {
    if |labels| == 0 then None
    else match labels[0]
      case None => None
      case Some(t) => if Trim(t) == "" then None else Some(Trim(t))
  }

  /** `detectTooltipContainer`: the last of the matching containers, none when there is none. */
  function DetectTooltipContainer(cs: seq<seq<Node>>): (r: Option<nat>)
    ensures r.None? <==> |cs| == 0
    ensures r.Some? ==> r.value == |cs| - 1
  {
    if |cs| == 0 then None else Some(|cs| - 1)
  }

  /** Which code issued a backend call. */
  datatype Origin = FromPass | FromRefresh

  /**
   * A backend call in flight: the game it asks about, and the document and
   * identity of the widget that its `then` handler will replace.
   */
  datatype Request = Request(origin: Origin, gameName: string, doc: Document, target: nat)

  /** The module state at one moment. */
  datatype Shared = Shared(
    currentGameName: Option<string>,
    processingGameName: Option<string>,
    currentDoc: Document?,
    observer: Document?,
    pending: seq<Request>)

  /** The widget has children (Steam can empty it on hover). */
  predicate HasContent(existing: Option<Node>)
  {
    existing.Some? && |existing.value.elem.children| > 0
  }

  /** A pass of `handleGamePage` gets past its four early returns. */
  predicate Proceeds(s: Shared, d: Doc)
  {
    var gameName := DetectGameName(d.labels);
    DetectTooltipContainer(d.containers).Some? &&
    gameName.Some? &&
    gameName != s.processingGameName &&
    !(gameName == s.currentGameName && HasContent(GetExistingDisplay(d.containers)))
  }

  /** The widget a pass appends, with the next identity of the document. */
  function LoadingNode(d: Doc): Node
  {
    Node(d.nextHandle, DisplayTree(Undefined))
  }

  /**
   * The module state and document content after one pass of
   * `handleGamePage(doc)` on content `d`, the backend call included as a
   * pending request.
   */
  function PassOutcome(s: Shared, doc: Document, d: Doc): (r: (Shared, Doc))
    ensures !Proceeds(s, d) ==> r == (s, d)
    ensures r.0.observer == s.observer && r.1.labels == d.labels && |r.1.containers| == |d.containers|
    ensures Proceeds(s, d) ==>
      r.0.currentGameName == DetectGameName(d.labels) && r.0.currentDoc == doc &&
      r.0.processingGameName.None?
    ensures Proceeds(s, d) ==>
      |r.0.pending| == |s.pending| + 1 && r.0.pending[..|s.pending|] == s.pending &&
      r.0.pending[|s.pending|].gameName == DetectGameName(d.labels).value &&
      r.0.pending[|s.pending|].doc == doc && r.0.pending[|s.pending|].origin == FromPass
  {
    if !Proceeds(s, d) then (s, d)
    else Shown(s, doc, d, DetectGameName(d.labels).value, DetectTooltipContainer(d.containers).value)
  }

  /**
   * The effect of a pass past its guards for `gameName`, with container `c`:
   * the old widget removed, a loading widget appended to the container, the
   * backend call pending, the lock released.
   */
  function Shown(s: Shared, doc: Document, d: Doc, gameName: string, c: nat): (r: (Shared, Doc))
    requires c < |d.containers|
    ensures r.0 == Shared(Some(gameName), None, doc, s.observer, r.0.pending)
    ensures |r.0.pending| == |s.pending| + 1 && r.0.pending[..|s.pending|] == s.pending
    ensures r.0.pending[|s.pending|].gameName == gameName && r.0.pending[|s.pending|].doc == doc &&
            r.0.pending[|s.pending|].origin == FromPass
    ensures r.1 == Doc(d.labels, Appended(WithoutDisplay(d.containers), c, LoadingNode(d)), d.nextHandle + 1)
  {
    var cs := Appended(WithoutDisplay(d.containers), c, LoadingNode(d));
    AppendedCount(WithoutDisplay(d.containers), c, LoadingNode(d), DisplayKey);
    var existing := GetExistingDisplay(cs).value;
    var pending := s.pending + [Request(FromPass, gameName, doc, existing.handle)];
    assert pending[..|s.pending|] == s.pending;
    (Shared(Some(gameName), None, doc, s.observer, pending), Doc(d.labels, cs, d.nextHandle + 1))
  }

  /**
   * The call a pass issues captures the widget `getExistingDisplay` finds
   * once the loading widget is in: the loading widget itself only when the
   * document held at most one widget before.
   */
  lemma ShownCapturesExisting(s: Shared, doc: Document, d: Doc, gameName: string, c: nat)
    requires c < |d.containers|
    ensures var r := Shown(s, doc, d, gameName, c);
      GetExistingDisplay(r.1.containers).Some? &&
      r.0.pending[|s.pending|].target == GetExistingDisplay(r.1.containers).value.handle
  {
    AppendedCount(WithoutDisplay(d.containers), c, LoadingNode(d), DisplayKey);
  }

  /**
   * The module state and the content of the request's document after the
   * reply to pending request `i` arrives; `reply` is none when the backend
   * call failed or its payload was empty or falsy.
   */
  function ReplyOutcome(s: Shared, i: nat, reply: Option<LicenseData>, d: Doc): (r: (Shared, Doc))
    requires i < |s.pending|
    ensures r.0 == s.(pending := s.pending[..i] + s.pending[i + 1..])
    ensures reply.None? || Find(d.containers, ByHandle(s.pending[i].target)).None? ==> r.1 == d
    ensures s.pending[i].origin == FromRefresh && s.currentDoc == null ==> r.1 == d
    ensures r.1.labels == d.labels && |r.1.containers| == |d.containers|
  {
    var req := s.pending[i];
    var s' := s.(pending := s.pending[..i] + s.pending[i + 1..]);
    if reply.None? then (s', d)
    else if req.origin == FromRefresh && s.currentDoc == null then (s', d)
    else (s', Replaced(d, req.target, DisplayTree(Present(reply.value))))
  }

  /** The module state after `refreshDisplay()`, where `d` is the content of `currentDoc`. */
  function RefreshOutcome(s: Shared, d: Doc): (r: Shared)
    ensures r.(pending := s.pending) == s
    ensures (s.currentDoc == null || s.currentGameName.None? || s.currentGameName == Some("") ||
             GetExistingDisplay(d.containers).None?) ==> r == s
    ensures r != s ==>
      r.pending == s.pending + [Request(FromRefresh, s.currentGameName.value, s.currentDoc,
                                         GetExistingDisplay(d.containers).value.handle)]
    ensures s.currentDoc != null && s.currentGameName.Some? && s.currentGameName.value != "" &&
            GetExistingDisplay(d.containers).Some? ==>
      r.pending == s.pending + [Request(FromRefresh, s.currentGameName.value, s.currentDoc,
                                         GetExistingDisplay(d.containers).value.handle)]
  {
    if s.currentDoc == null || s.currentGameName.None? || s.currentGameName.value == "" then s
    else match GetExistingDisplay(d.containers)
      case None => s
      case Some(existing) =>
        s.(pending := s.pending + [Request(FromRefresh, s.currentGameName.value, s.currentDoc, existing.handle)])
  }

  /** The reply's target, if it is still in the document, is a widget. */
  predicate TargetIsWidget(d: Doc, h: nat)
  {
    match Find(d.containers, ByHandle(h))
    case None => true
    case Some(p) => d.containers[p.c][p.k].elem.id == ContainerId
  }

  // ---------------------------------------------------------------- lemmas

  /**
   * A pass that gets past the guards leaves exactly one widget in the
   * document: a fresh loading widget, the last child of the last container,
   * and the target of the request the pass issues.
   */
  lemma PassLeavesOneLoadingWidget(s: Shared, doc: Document, d: Doc)
    requires Proceeds(s, d) && Count(d.containers, DisplayKey) <= 1
    ensures var r := PassOutcome(s, doc, d);
      var c := |d.containers| - 1;
      Count(r.1.containers, DisplayKey) == 1 &&
      r.1.containers[c] == WithoutDisplay(d.containers)[c] + [LoadingNode(d)] &&
      GetExistingDisplay(r.1.containers) == Some(LoadingNode(d)) &&
      r.0.pending[|s.pending|].target == d.nextHandle &&
      ValueOf(LoadingNode(d).elem) == LoadingText
  {
    ShownLeavesOneLoadingWidget(s, doc, d, DetectGameName(d.labels).value, |d.containers| - 1);
  }

  lemma ShownLeavesOneLoadingWidget(s: Shared, doc: Document, d: Doc, gameName: string, c: nat)
    requires c < |d.containers| && Count(d.containers, DisplayKey) <= 1
    ensures var r := Shown(s, doc, d, gameName, c);
      Count(r.1.containers, DisplayKey) == 1 &&
      r.1.containers[c] == WithoutDisplay(d.containers)[c] + [LoadingNode(d)] &&
      GetExistingDisplay(r.1.containers) == Some(LoadingNode(d)) &&
      r.0.pending[|s.pending|].target == d.nextHandle &&
      ValueOf(LoadingNode(d).elem) == LoadingText
  {
    var cs0 := WithoutDisplay(d.containers);
    var cs := Appended(cs0, c, LoadingNode(d));
    WithoutDisplayRemovesOnlyIt(d.containers);
    AppendedCount(cs0, c, LoadingNode(d), DisplayKey);
    FindUnique(cs, DisplayKey, Pos(c, |cs[c]| - 1));
  }

  /**
   * The four early returns of `handleGamePage`: a missing container, a
   * missing or blank name, the re-entry lock, and a widget with content for
   * the current game each leave state and document as they were; past them
   * the pass hands out a new identity and issues one backend call.
   */
  lemma PassGuards(s: Shared, doc: Document, d: Doc)
    ensures var r := PassOutcome(s, doc, d);
      var name := DetectGameName(d.labels);
      (|d.containers| == 0 ==> r == (s, d)) &&
      (|d.labels| == 0 || d.labels[0].None? || AllSpace(d.labels[0].value) ==> r == (s, d)) &&
      (name == s.processingGameName ==> r == (s, d)) &&
      ((name == s.currentGameName && GetExistingDisplay(d.containers).Some? &&
        |GetExistingDisplay(d.containers).value.elem.children| > 0) ==> r == (s, d)) &&
      (Proceeds(s, d) ==> r.1.nextHandle == d.nextHandle + 1 && |r.0.pending| == |s.pending| + 1)
  {
  }

  /**
   * The lock is never held between steps: a pass releases it before its
   * backend call is answered, and replies and refreshes never take it.
   * Hence, started from the initial state, the re-entry guard never fires.
   */
  lemma LockFreeBetweenSteps(s: Shared, doc: Document, d: Doc, i: nat, reply: Option<LicenseData>)
    requires s.processingGameName.None?
    ensures PassOutcome(s, doc, d).0.processingGameName.None?
    ensures i < |s.pending| ==> ReplyOutcome(s, i, reply, d).0.processingGameName.None?
    ensures RefreshOutcome(s, d).processingGameName.None?
    ensures Proceeds(s, d) <==>
      DetectTooltipContainer(d.containers).Some? && DetectGameName(d.labels).Some? &&
      !(DetectGameName(d.labels) == s.currentGameName && HasContent(GetExistingDisplay(d.containers)))
  {
  }

  /** A pass keeps the document's identities unique and at most one widget in it. */
  lemma PassPreservesDocument(s: Shared, doc: Document, d: Doc)
    requires ValidDoc(d) && Count(d.containers, DisplayKey) <= 1
    ensures ValidDoc(PassOutcome(s, doc, d).1)
    ensures Count(PassOutcome(s, doc, d).1.containers, DisplayKey) <= 1
  {
    if Proceeds(s, d) {
      var c := |d.containers| - 1;
      var name := DetectGameName(d.labels).value;
      assert PassOutcome(s, doc, d) == Shown(s, doc, d, name, c);
      ShownLeavesOneLoadingWidget(s, doc, d, name, c);
      InsertedValid(d, c);
    }
  }

  /** Removing the widget and appending the loading widget keeps identities unique. */
  lemma InsertedValid(d: Doc, c: nat)
    requires ValidDoc(d) && c < |d.containers|
    ensures ValidDoc(Doc(d.labels, Appended(WithoutDisplay(d.containers), c, LoadingNode(d)), d.nextHandle + 1))
  {
    var d0 := Doc(d.labels, WithoutDisplay(d.containers), d.nextHandle);
    match Find(d.containers, DisplayKey) {
      case None =>
      case Some(p) => RemovedValid(d, p);
    }
    AppendedValid(d0, c, DisplayTree(Undefined));
  }

  /**
   * Idempotence: on an unchanged document, a second pass right after the
   * first changes neither the state nor the document.
   */
  lemma PassIdempotent(s: Shared, doc: Document, d: Doc)
    requires Count(d.containers, DisplayKey) <= 1
    ensures var r := PassOutcome(s, doc, d); PassOutcome(r.0, doc, r.1) == r
  {
    if Proceeds(s, d) {
      PassLeavesOneLoadingWidget(s, doc, d);
      var r := PassOutcome(s, doc, d);
      assert !Proceeds(r.0, r.1);
    }
  }

  /**
   * A pass that gets past the guards detaches every widget identity handed
   * out before it: a reply still pending for such a widget finds its target
   * gone, so what it brings is never shown.
   */
  lemma PassDetachesEarlierWidgets(s: Shared, doc: Document, d: Doc, h: nat)
    requires ValidDoc(d) && Count(d.containers, DisplayKey) <= 1
    requires Proceeds(s, d) && h < d.nextHandle && TargetIsWidget(d, h)
    ensures Find(PassOutcome(s, doc, d).1.containers, ByHandle(h)).None?
  {
    var c := |d.containers| - 1;
    assert PassOutcome(s, doc, d).1.containers == Appended(WithoutDisplay(d.containers), c, LoadingNode(d)) by {
      assert PassOutcome(s, doc, d) == Shown(s, doc, d, DetectGameName(d.labels).value, c);
    }
    ReplacedWidgetDetached(d, c, h);
  }

  /** Removing the widget and appending a fresh one leaves no node with an old widget's identity. */
  lemma ReplacedWidgetDetached(d: Doc, c: nat, h: nat)
    requires ValidDoc(d) && Count(d.containers, DisplayKey) <= 1
    requires c < |d.containers| && h < d.nextHandle && TargetIsWidget(d, h)
    ensures Find(Appended(WithoutDisplay(d.containers), c, LoadingNode(d)), ByHandle(h)).None?
  {
    var cs0 := WithoutDisplay(d.containers);
    var key := ByHandle(h);
    match Find(d.containers, key) {
      case None =>
        FindCount(d.containers, key);
        match Find(d.containers, DisplayKey) {
          case None =>
          case Some(p) => RemovedCount(d.containers, p, key);
        }
      case Some(q) =>
        FindUnique(d.containers, DisplayKey, q);
        ExistsCounts(d.containers, key, q);
        RemovedCount(d.containers, q, key);
    }
    AppendedCount(cs0, c, LoadingNode(d), key);
    FindCount(Appended(cs0, c, LoadingNode(d)), key);
  }

  /**
   * A reply with a record replaces its target, where it stands, by a widget
   * showing that record, whatever game is current by then: the reply does
   * not re-check the game name.
   */
  lemma ReplyShowsRecord(s: Shared, i: nat, rec: LicenseData, d: Doc, p: Pos, g: Option<string>)
    requires i < |s.pending| && At(d.containers, p)
    requires d.containers[p.c][p.k].handle == s.pending[i].target && Count(d.containers, ByHandle(s.pending[i].target)) <= 1
    requires s.pending[i].origin == FromPass || s.currentDoc != null
    ensures var r := ReplyOutcome(s.(currentGameName := g), i, Some(rec), d).1;
      r.containers == d.containers[p.c := d.containers[p.c][p.k := Node(d.nextHandle, DisplayTree(Present(rec)))]] &&
      ValueOf(r.containers[p.c][p.k].elem) == StatusText(Present(rec))
  {
    FindUnique(d.containers, ByHandle(s.pending[i].target), p);
  }

  /** A reply keeps the document's identities unique and at most one widget in it. */
  lemma ReplyPreservesDocument(s: Shared, i: nat, reply: Option<LicenseData>, d: Doc)
    requires i < |s.pending| && ValidDoc(d) && Count(d.containers, DisplayKey) <= 1
    requires TargetIsWidget(d, s.pending[i].target)
    ensures ValidDoc(ReplyOutcome(s, i, reply, d).1)
    ensures Count(ReplyOutcome(s, i, reply, d).1.containers, DisplayKey) <= 1
  {
    var h := s.pending[i].target;
    if reply.Some? {
      var e := DisplayTree(Present(reply.value));
      ReplacedValid(d, h, e);
      match Find(d.containers, ByHandle(h)) {
        case None =>
        case Some(p) => SetCount(d.containers, p, Node(d.nextHandle, e), DisplayKey);
      }
    }
  }

  // ------------------------------------------------------------- invariant

  /** A call on a document is sound there: its identity was handed out, and it is a widget or detached. */
  predicate CallOk(d: Doc, req: Request)
  {
    req.target < d.nextHandle && TargetIsWidget(d, req.target)
  }

  /**
   * The invariant of document `doc`, with content `d`, under the
   * synchroniser: identities are unique, it holds at most one widget, and
   * every pending call on it is sound.
   */
  ghost predicate Inv(s: Shared, doc: Document, d: Doc)
  {
    ValidDoc(d) && Count(d.containers, DisplayKey) <= 1 &&
    forall k :: 0 <= k < |s.pending| && s.pending[k].doc == doc ==> CallOk(d, s.pending[k])
  }

  /** The widget `getExistingDisplay` returns is a sound target. */
  lemma ExistingIsTarget(d: Doc)
    requires ValidDoc(d) && GetExistingDisplay(d.containers).Some?
    ensures var h := GetExistingDisplay(d.containers).value.handle;
      h < d.nextHandle && TargetIsWidget(d, h)
  {
    FindCount(d.containers, DisplayKey);
    var p := Find(d.containers, DisplayKey).value;
    var key := ByHandle(d.containers[p.c][p.k].handle);
    ExistsCounts(d.containers, key, p);
    FindUnique(d.containers, key, p);
  }

  /** `replaceWith` on one node keeps every other sound target sound, and detaches its own. */
  lemma ReplacedKeepsTarget(d: Doc, h: nat, e: Element, g: nat)
    requires ValidDoc(d) && g < d.nextHandle && TargetIsWidget(d, g)
    ensures g < Replaced(d, h, e).nextHandle && TargetIsWidget(Replaced(d, h, e), g)
    ensures Find(Replaced(d, h, e).containers, ByHandle(h)).None?
  {
    if Find(d.containers, ByHandle(h)).Some? {
      var p := Find(d.containers, ByHandle(h)).value;
      var n := Node(d.nextHandle, e);
      var cs := Replaced(d, h, e).containers;
      assert cs == d.containers[p.c := d.containers[p.c][p.k := n]];
      ExistsCounts(d.containers, ByHandle(h), p);
      SetCount(d.containers, p, n, ByHandle(h));
      FindCount(cs, ByHandle(h));
      SetCount(d.containers, p, n, ByHandle(g));
      FindCount(cs, ByHandle(g));
      if Find(cs, ByHandle(g)).Some? {
        var q := Find(cs, ByHandle(g)).value;
        assert q != p;
        assert d.containers[q.c][q.k] == cs[q.c][q.k];
        FindUnique(d.containers, ByHandle(g), q);
      }
    }
  }

  /** A pass on `doc` keeps the invariant: earlier calls on it are detached, the new one targets the new widget. */
  lemma PassKeepsInv(s: Shared, doc: Document, d: Doc)
    requires Inv(s, doc, d)
    ensures var r := PassOutcome(s, doc, d); Inv(r.0, doc, r.1)
    ensures var r := PassOutcome(s, doc, d); Proceeds(s, d) ==>
      (forall k :: 0 <= k < |s.pending| && s.pending[k].doc == doc ==>
         Find(r.1.containers, ByHandle(s.pending[k].target)).None?) &&
      r.0.pending[|s.pending|].target == d.nextHandle
  {
    if Proceeds(s, d) {
      var c := |d.containers| - 1;
      var name := DetectGameName(d.labels).value;
      assert PassOutcome(s, doc, d) == Shown(s, doc, d, name, c);
      ShownKeepsInv(s, doc, d, name, c);
    }
  }

  /** The same for the statements after the guards, for any chosen container. */
  lemma ShownKeepsInv(s: Shared, doc: Document, d: Doc, gameName: string, c: nat)
    requires Inv(s, doc, d) && c < |d.containers|
    ensures var r := Shown(s, doc, d, gameName, c); Inv(r.0, doc, r.1)
    ensures var r := Shown(s, doc, d, gameName, c);
      (forall k :: 0 <= k < |s.pending| && s.pending[k].doc == doc ==>
         Find(r.1.containers, ByHandle(s.pending[k].target)).None?) &&
      r.0.pending[|s.pending|].target == d.nextHandle
  {
    var r := Shown(s, doc, d, gameName, c);
    ShownLeavesOneLoadingWidget(s, doc, d, gameName, c);
    InsertedValid(d, c);
    ExistingIsTarget(r.1);
    forall k | 0 <= k < |r.0.pending| && r.0.pending[k].doc == doc ensures CallOk(r.1, r.0.pending[k]) {
      if k < |s.pending| {
        assert r.0.pending[k] == r.0.pending[..|s.pending|][k] == s.pending[k];
        assert CallOk(d, s.pending[k]);
        ReplacedWidgetDetached(d, c, s.pending[k].target);
      }
    }
    forall k | 0 <= k < |s.pending| && s.pending[k].doc == doc
      ensures Find(r.1.containers, ByHandle(s.pending[k].target)).None?
    {
      assert CallOk(d, s.pending[k]);
      ReplacedWidgetDetached(d, c, s.pending[k].target);
    }
  }

  /** A reply to a call on `doc` keeps the invariant. */
  lemma ReplyKeepsInv(s: Shared, doc: Document, d: Doc, i: nat, reply: Option<LicenseData>)
    requires Inv(s, doc, d) && i < |s.pending| && s.pending[i].doc == doc
    ensures var r := ReplyOutcome(s, i, reply, d); Inv(r.0, doc, r.1)
  {
    var r := ReplyOutcome(s, i, reply, d);
    assert CallOk(d, s.pending[i]);
    ReplyPreservesDocument(s, i, reply, d);
    forall k | 0 <= k < |r.0.pending| && r.0.pending[k].doc == doc ensures CallOk(r.1, r.0.pending[k]) {
      var k' := if k < i then k else k + 1;
      assert r.0.pending[k] == s.pending[k'];
      assert CallOk(d, s.pending[k']);
      if r.1 != d {
        ReplacedKeepsTarget(d, s.pending[i].target, DisplayTree(Present(reply.value)), s.pending[k'].target);
      }
    }
  }

  /**
   * `refreshDisplay()` keeps the invariant of `doc`, where `dc` is the
   * content of the current document (that of `doc` when it is current).
   */
  lemma RefreshKeepsInv(s: Shared, doc: Document, d: Doc, dc: Doc)
    requires Inv(s, doc, d) && (s.currentDoc == doc ==> dc == d)
    ensures Inv(RefreshOutcome(s, dc), doc, d)
  {
    var r := RefreshOutcome(s, dc);
    if r != s && s.currentDoc == doc {
      ExistingIsTarget(d);
    }
  }

  /** A pass on another document leaves the invariant of `doc` as it was. */
  lemma PassElsewhereKeepsInv(s: Shared, doc: Document, d: Doc, other: Document, d2: Doc)
    requires Inv(s, doc, d) && other != doc
    ensures Inv(PassOutcome(s, other, d2).0, doc, d)
  {
    var r := PassOutcome(s, other, d2).0;
    if Proceeds(s, d2) {
      forall k | 0 <= k < |r.pending| && r.pending[k].doc == doc ensures CallOk(d, r.pending[k]) {
        assert r.pending[k] == r.pending[..|s.pending|][k] == s.pending[k];
      }
    }
  }

  /** A reply to a call on another document leaves the invariant of `doc` as it was. */
  lemma ReplyElsewhereKeepsInv(s: Shared, doc: Document, d: Doc, i: nat, reply: Option<LicenseData>, d2: Doc)
    requires Inv(s, doc, d) && i < |s.pending| && s.pending[i].doc != doc
    ensures Inv(ReplyOutcome(s, i, reply, d2).0, doc, d)
  {
    var t := ReplyOutcome(s, i, reply, d2).0;
    forall k | 0 <= k < |t.pending| && t.pending[k].doc == doc ensures CallOk(d, t.pending[k]) {
      var k' := if k < i then k else k + 1;
      assert t.pending[k] == s.pending[k'];
    }
  }

  /** The state of observer.ts: its module-level variables and the backend calls in flight. */
  class ObserverState {
    var currentGameName: Option<string>
    var processingGameName: Option<string>
    var currentDoc: Document?
    var observer: Document?
    var pending: seq<Request>

    /** The state when the module is loaded. */
    constructor ()
      ensures State() == Shared(None, None, null, null, [])
    {
      currentGameName, processingGameName, currentDoc, observer, pending := None, None, null, null, [];
    }

    function State(): Shared
      reads this
    {
      Shared(currentGameName, processingGameName, currentDoc, observer, pending)
    }

    /** `resetState()`. */
    method ResetState()
      modifies this
      ensures State() == old(State()).(currentGameName := None, processingGameName := None, currentDoc := null)
    {
      currentGameName := None;
      processingGameName := None;
      currentDoc := null;
    }

    /** `refreshDisplay()`: asks the backend again for the current game, to redraw the widget. */
    method RefreshDisplay()
      modifies this
      ensures old(currentDoc) == null ==> State() == old(State())
      ensures old(currentDoc) != null ==> State() == RefreshOutcome(old(State()), old(currentDoc.Content()))
    {
      if currentDoc == null || currentGameName.None? || currentGameName.value == "" {
        return;
      }
      var existing := GetExistingDisplay(currentDoc.containers);
      if existing.None? {
        return;
      }
      pending := pending + [Request(FromRefresh, currentGameName.value, currentDoc, existing.value.handle)];
    }

    /**
     * `updateDisplayForApp(targetGameName)`: without a widget it returns
     * false; otherwise it issues the backend call, capturing the widget.
     */
    method UpdateDisplayForApp(doc: Document, targetGameName: string) returns (issued: bool)
      modifies this
      ensures issued <==> GetExistingDisplay(doc.containers).Some?
      ensures State() == old(State()).(pending :=
        if issued then old(pending) + [Request(FromPass, targetGameName, doc, GetExistingDisplay(doc.containers).value.handle)]
        else old(pending))
    {
      var existing := GetExistingDisplay(doc.containers);
      if existing.None? {
        return false;
      }
      pending := pending + [Request(FromPass, targetGameName, doc, existing.value.handle)];
      issued := true;
    }

    /** `handleGamePage(doc)`. Nothing in it is awaited, so the whole pass is one step. */
    method HandleGamePage(doc: Document)
      modifies this, doc
      ensures (State(), doc.Content()) == PassOutcome(old(State()), doc, old(doc.Content()))
    {
      var gameName := DetectGameName(doc.labels);
      var container := DetectTooltipContainer(doc.containers);
      if container.None? {
        return;
      }
      if gameName.None? {
        return;
      }
      // Re-entry guard.
      if gameName == processingGameName {
        return;
      }
      // The widget already shows something for this game.
      var existingDisplay := GetExistingDisplay(doc.containers);
      if gameName == currentGameName && existingDisplay.Some? && |existingDisplay.value.elem.children| > 0 {
        return;
      }
      ShowGame(doc, gameName.value, container.value);
    }

    /**
     * The part of `handleGamePage` after its guards: take the lock, record
     * the game and document, put a loading widget in place of the old one,
     * issue the backend call, and release the lock in `finally`.
     */
    method ShowGame(doc: Document, gameName: string, container: nat)
      requires container < |doc.containers|
      modifies this, doc
      ensures (State(), doc.Content()) == Shown(old(State()), doc, old(doc.Content()), gameName, container)
    {
      ghost var s0, d0 := State(), doc.Content();
      processingGameName := Some(gameName);
      currentGameName := Some(gameName);
      currentDoc := doc;

      ghost var r := Shown(s0, doc, d0, gameName, container);
      InsertLoading(doc, container);
      assert doc.Content() == r.1;
      ghost var target := GetExistingDisplay(doc.containers).value.handle;
      assert r.0.pending == s0.pending + [Request(FromPass, gameName, doc, target)];

      // "Game changed during fetch": currentGameName was set to gameName above
      // and nothing since has changed it, so this branch cannot be taken.
      if currentGameName.Some? && currentGameName.value != gameName {
        assert false;
      }
      var _ := UpdateDisplayForApp(doc, gameName);

      // finally: the lock is released before the backend call is answered.
      if processingGameName == Some(gameName) {
        processingGameName := None;
      }
      assert pending == r.0.pending;
      assert State() == r.0;
    }

    /** `removeExistingDisplay(doc)` then `container.appendChild(createDisplay(doc))`. */
    method InsertLoading(doc: Document, container: nat)
      requires container < |doc.containers|
      modifies doc
      ensures doc.Content() == old(doc.Content()).(
        containers := Appended(WithoutDisplay(old(doc.containers)), container, LoadingNode(old(doc.Content()))),
        nextHandle := old(doc.nextHandle) + 1)
      ensures GetExistingDisplay(doc.containers).Some?
    {
      ghost var d0 := doc.Content();
      RemoveExistingDisplay(doc);
      var loading := CreateDisplay(Undefined);
      var _ := doc.AppendChild(container, loading);
      AppendedCount(WithoutDisplay(d0.containers), container, LoadingNode(d0), DisplayKey);
    }

    /** The `then` handler of pending call `i` runs with the backend's answer. */
    method ReplyArrives(i: nat, reply: Option<LicenseData>)
      requires i < |pending|
      modifies this, pending[i].doc
      ensures var req := old(pending[i]);
        (State(), req.doc.Content()) == ReplyOutcome(old(State()), i, reply, old(req.doc.Content()))
    {
      var req := pending[i];
      pending := pending[..i] + pending[i + 1..];
      if reply.None? {
        return;
      }
      // refreshDisplay's handler calls createDisplay(currentDoc, data), which
      // throws on a null document; the rejection is caught and only logged.
      if req.origin == FromRefresh && currentDoc == null {
        return;
      }
      var e := CreateDisplay(Present(reply.value));
      req.doc.ReplaceWith(req.target, e);
    }

    /** `setupObserver(doc)`: replaces the subscription, then runs one pass at once. */
    method SetupObserver(doc: Document)
      modifies this, doc
      ensures (State(), doc.Content()) == PassOutcome(old(State()).(observer := doc), doc, old(doc.Content()))
    {
      if observer != null {
        observer := null;
      }
      observer := doc;
      HandleGamePage(doc);
    }

    /** The subscription's callback: a mutation of the observed document triggers one pass. */
    method OnMutation()
      modifies this, observer
      ensures old(observer) == null ==> State() == old(State())
      ensures old(observer) != null ==>
        (State(), old(observer).Content()) == PassOutcome(old(State()), old(observer), old(observer.Content()))
    {
      if observer != null {
        HandleGamePage(observer);
      }
    }

    /** `disconnectObserver()`. */
    method DisconnectObserver()
      modifies this
      ensures State() == old(State()).(observer := null)
    {
      if observer != null {
        observer := null;
      }
    }
  }

  /**
   * After a pass for A and a navigation that changes only the name label,
   * A's loading widget is the document's only widget and A's call targets it.
   */
  lemma NavigationKeepsWidget(s0: Shared, doc: Document, d0: Doc, labels: seq<Option<string>>)
    requires ValidDoc(d0) && Count(d0.containers, DisplayKey) <= 1 && Proceeds(s0, d0)
    ensures var r1 := PassOutcome(s0, doc, d0);
      var d1 := r1.1.(labels := labels);
      ValidDoc(d1) && Count(d1.containers, DisplayKey) == 1 &&
      GetExistingDisplay(d1.containers) == Some(LoadingNode(d0)) &&
      r1.0.pending[|s0.pending|].target == d0.nextHandle && d0.nextHandle < d1.nextHandle
  {
    PassLeavesOneLoadingWidget(s0, doc, d0);
    PassPreservesDocument(s0, doc, d0);
  }

  /** The widget a document holds once is the target of a call that still finds it. */
  lemma OnlyWidgetIsTarget(d: Doc, n: Node)
    requires ValidDoc(d) && Count(d.containers, DisplayKey) == 1 && GetExistingDisplay(d.containers) == Some(n)
    ensures TargetIsWidget(d, n.handle)
  {
    FindUnique(d.containers, ByHandle(n.handle), Find(d.containers, DisplayKey).value);
  }

  /**
   * A pass for another game than the current one gets past the guards once
   * a container and a name are there and the lock is free.
   */
  lemma NewGameProceeds(s: Shared, d: Doc)
    requires |d.containers| > 0 && DetectGameName(d.labels).Some? && s.processingGameName.None?
    requires DetectGameName(d.labels) != s.currentGameName
    ensures Proceeds(s, d)
  {
  }

  /**
   * A reply to a call issued before a pass, whose widget was attached or
   * already gone when the pass ran, changes nothing in the document.
   */
  lemma StaleReplyIgnored(s1: Shared, doc: Document, d1: Doc, i: nat, reply: Option<LicenseData>)
    requires ValidDoc(d1) && Count(d1.containers, DisplayKey) <= 1 && Proceeds(s1, d1)
    requires i < |s1.pending| && s1.pending[i].target < d1.nextHandle && TargetIsWidget(d1, s1.pending[i].target)
    ensures var r2 := PassOutcome(s1, doc, d1);
      i < |r2.0.pending| && r2.0.pending[i] == s1.pending[i] &&
      ReplyOutcome(r2.0, i, reply, r2.1).1 == r2.1
  {
    var r2 := PassOutcome(s1, doc, d1);
    assert r2.0.pending[..|s1.pending|] == s1.pending;
    PassDetachesEarlierWidgets(s1, doc, d1, s1.pending[i].target);
  }

  /** After such a reply, the call the pass issued is still the last one pending. */
  lemma StaleReplyKeepsNewCall(s1: Shared, doc: Document, d1: Doc, i: nat, reply: Option<LicenseData>)
    requires Proceeds(s1, d1) && i < |s1.pending|
    ensures var r2 := PassOutcome(s1, doc, d1);
      var r3 := ReplyOutcome(r2.0, i, reply, r2.1).0;
      r3.currentGameName == DetectGameName(d1.labels) &&
      |r3.pending| == |s1.pending| && r3.pending[|s1.pending| - 1] == r2.0.pending[|s1.pending|]
  {
    var r2 := PassOutcome(s1, doc, d1);
    assert r2 == Shown(s1, doc, d1, DetectGameName(d1.labels).value, |d1.containers| - 1);
    var p := r2.0.pending;
    assert ReplyOutcome(r2.0, i, reply, r2.1).0.pending == p[..i] + p[i + 1..];
  }

  /**
   * The race of a navigation during the fetch: a pass for game A issues its
   * call, the host then shows game B (only the name label changes), and a
   * pass for B runs before A's reply arrives. A's reply then changes
   * nothing, B is current, and the only widget left is B's loading widget,
   * which B's call targets.
   */
  lemma NavigationDuringFetch(s0: Shared, doc: Document, d0: Doc, labelB: string, replyA: Option<LicenseData>)
    requires ValidDoc(d0) && Count(d0.containers, DisplayKey) <= 1
    requires Proceeds(s0, d0)
    requires !AllSpace(labelB) && Some(Trim(labelB)) != DetectGameName(d0.labels)
    ensures var r1 := PassOutcome(s0, doc, d0);
      var d1 := r1.1.(labels := [Some(labelB)]);
      var r2 := PassOutcome(r1.0, doc, d1);
      var i := |s0.pending|;
      i < |r2.0.pending| && r2.0.pending[i].gameName == DetectGameName(d0.labels).value &&
      var r3 := ReplyOutcome(r2.0, i, replyA, r2.1);
      r3.1 == r2.1 &&
      r3.0.currentGameName == Some(Trim(labelB)) &&
      Count(r3.1.containers, DisplayKey) == 1 &&
      GetExistingDisplay(r3.1.containers) == Some(LoadingNode(d1)) &&
      |r3.0.pending| == |s0.pending| + 1 &&
      r3.0.pending[|s0.pending|].gameName == Trim(labelB) &&
      r3.0.pending[|s0.pending|].target == LoadingNode(d1).handle
  {
    var i := |s0.pending|;
    var r1 := PassOutcome(s0, doc, d0);
    var d1 := r1.1.(labels := [Some(labelB)]);
    assert ValidDoc(d1) && Count(d1.containers, DisplayKey) <= 1 && Proceeds(r1.0, d1) &&
           i < |r1.0.pending| && r1.0.pending[i].target < d1.nextHandle &&
           TargetIsWidget(d1, r1.0.pending[i].target) by {
      NavigationKeepsWidget(s0, doc, d0, [Some(labelB)]);
      OnlyWidgetIsTarget(d1, LoadingNode(d0));
      NewGameProceeds(r1.0, d1);
    }
    PassThenStaleReply(r1.0, doc, d1, i, replyA);
  }

  /**
   * A pass past the guards, then the reply to a call issued before it whose
   * captured widget was the document's only widget: the reply changes
   * nothing, and the pass's loading widget and call are what is left.
   */
  lemma PassThenStaleReply(s1: Shared, doc: Document, d1: Doc, i: nat, reply: Option<LicenseData>)
    requires ValidDoc(d1) && Count(d1.containers, DisplayKey) <= 1 && Proceeds(s1, d1)
    requires i < |s1.pending| && s1.pending[i].target < d1.nextHandle && TargetIsWidget(d1, s1.pending[i].target)
    ensures var r2 := PassOutcome(s1, doc, d1);
      i < |r2.0.pending| && r2.0.pending[i] == s1.pending[i] &&
      var r3 := ReplyOutcome(r2.0, i, reply, r2.1);
      r3.1 == r2.1 &&
      r3.0.currentGameName == DetectGameName(d1.labels) &&
      Count(r3.1.containers, DisplayKey) == 1 &&
      GetExistingDisplay(r3.1.containers) == Some(LoadingNode(d1)) &&
      |r3.0.pending| == |s1.pending| &&
      r3.0.pending[|s1.pending| - 1].gameName == DetectGameName(d1.labels).value &&
      r3.0.pending[|s1.pending| - 1].target == LoadingNode(d1).handle
  {
    StaleReplyIgnored(s1, doc, d1, i, reply);
    PassLeavesOneLoadingWidget(s1, doc, d1);
    StaleReplyKeepsNewCall(s1, doc, d1, i, reply);
  }
}
