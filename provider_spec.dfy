/** What the custom editor provider does, as functions of its state: the
    registry of open panels, the scroll fan-out, the diff between two views
    of one file, and the effects of webview messages and commands. The
    provider class is proved to follow these functions; the lemmas here
    state what they promise. */
module ProviderRules {
  import opened Text
  import opened JsCollections
  import opened SequenceDiff
  import opened IndexRemap
  import opened BlockExtract
  import opened Renderer

  /** A webview panel, known only by its identity. */
  datatype Panel = Panel(id: nat)

  /** The messages the provider posts to a webview. */
  datatype Outgoing =
    | SyncScroll(scrollPercent: real)
    | Highlight(removed: seq<nat>, added: seq<nat>)
    | UpdateZoom(zoom: real)
    | ToggleOutline(visible: bool)
    | UpdateTheme(theme: string)
    | ToggleToolbar(visible: bool)

  datatype Post = Post(target: Panel, message: Outgoing)

  /** The messages a webview sends; a field the message lacks is `None`. */
  datatype Incoming =
    | Scroll(scrollPercent: Option<real>)
    | ZoomChanged(zoom: Option<real>)
    | OutlineToggled(visible: Option<bool>)
    | ThemeChanged(theme: Option<string>)
    | ToolbarToggled(visible: Option<bool>)
    | ErrorReport(message: Option<string>)
    | InfoReport(message: Option<string>)
    | OtherCommand

  /** What a handler does outside the provider's own state. */
  datatype Effect = Send(post: Post) | ShowError(text: string) | ShowInformation(text: string) | UpdateStatusBar

  /** `x ?? d`. */
  function Default<T>(x: Option<T>, d: T): T {
    if x.Some? then x.value else d
  }

  // ----- the registry -----

  type ActiveMap = OrderedMap<string, Panel>
  type GroupMap = OrderedMap<string, seq<Panel>>

  /** The two maps are valid, and every group of panels is non-empty and
      lists each panel once. */
  ghost predicate Registry(active: ActiveMap, groups: GroupMap) {
    && active.Valid() && groups.Valid()
    && forall path :: path in groups.entries ==> groups.entries[path] != [] && Distinct(groups.entries[path])
  }

  /** `panelsByPath.get(fsPath) || []`. */
  function GroupOf(groups: GroupMap, path: string): seq<Panel> {
    Default(groups.Get(path), [])
  }

  /** Lines 20-22 of docxEditorProvider.ts: the panel joins the end of its
      file's group. */
  function Opened(groups: GroupMap, path: string, panel: Panel): GroupMap {
    groups.Set(path, GroupOf(groups, path) + [panel])
  }

  /** Lines 37-46: the panel leaves its file's group, and an emptied group is
      dropped. */
  function Disposed(groups: GroupMap, path: string, panel: Panel): GroupMap {
    var panels := GroupOf(groups, path);
    match IndexOf(panels, panel)
    case None => groups
    case Some(i) =>
      var rest := RemoveAt(panels, i);
      if rest == [] then groups.Delete(path) else groups.Set(path, rest)
  }

  /** Opening a panel that is not in its file's group yet keeps the registry
      valid; the panel is then the last member of the group. */
  lemma {:induction false} OpenedRegistry(active: ActiveMap, groups: GroupMap, uri: string, path: string, panel: Panel)
    requires Registry(active, groups) && panel !in GroupOf(groups, path)
    ensures Registry(active.Set(uri, panel), Opened(groups, path, panel))
    ensures GroupOf(Opened(groups, path, panel), path) == GroupOf(groups, path) + [panel]
    ensures forall other :: other != path ==> GroupOf(Opened(groups, path, panel), other) == GroupOf(groups, other)
  {
    var old_ := GroupOf(groups, path);
    SetMeaning(active, uri, panel);
    SetMeaning(groups, path, old_ + [panel]);
    assert Distinct(old_ + [panel]) by {
      if path in groups.entries {
        assert Distinct(old_);
      }
      forall p, q | 0 <= p < q < |old_ + [panel]| ensures (old_ + [panel])[p] != (old_ + [panel])[q] {
        if q == |old_| {
          assert (old_ + [panel])[p] == old_[p];
        } else {
          assert (old_ + [panel])[p] == old_[p] && (old_ + [panel])[q] == old_[q];
        }
      }
    }
  }

  lemma {:induction false} RemoveAtDistinct<T>(s: seq<T>, i: nat)
    requires i < |s| && Distinct(s)
    ensures Distinct(RemoveAt(s, i))
  {
    var r := RemoveAt(s, i);
    forall p, q | 0 <= p < q < |r| ensures r[p] != r[q] {
      var p' := if p < i then p else p + 1;
      var q' := if q < i then q else q + 1;
      assert r[p] == s[p'] && r[q] == s[q'];
    }
  }

  /** Disposing a panel keeps the registry valid and touches no other
      group. A panel outside its file's group changes nothing. Otherwise the
      panel leaves the group, the other members stay in their order, and
      the file's entry is deleted exactly when the panel was the group's
      only member. */
  lemma {:induction false} DisposedRegistry(active: ActiveMap, groups: GroupMap, uri: string, path: string, panel: Panel)
    requires Registry(active, groups)
    ensures Registry(active.Delete(uri), Disposed(groups, path, panel))
    ensures panel !in GroupOf(Disposed(groups, path, panel), path)
    ensures forall other :: other != path ==> GroupOf(Disposed(groups, path, panel), other) == GroupOf(groups, other)
    ensures panel !in GroupOf(groups, path) ==> Disposed(groups, path, panel) == groups
    ensures forall q :: q in GroupOf(Disposed(groups, path, panel), path) <==> q in GroupOf(groups, path) && q != panel
    ensures var panels := GroupOf(groups, path);
      IndexOf(panels, panel).Some? && |panels| > 1 ==>
        GroupOf(Disposed(groups, path, panel), path) == RemoveAt(panels, IndexOf(panels, panel).value)
    ensures path in Disposed(groups, path, panel).entries <==> path in groups.entries && GroupOf(groups, path) != [panel]
  {
    DeleteMeaning(active, uri);
    var panels := GroupOf(groups, path);
    match IndexOf(panels, panel)
    case None =>
    case Some(i) =>
      var rest := RemoveAt(panels, i);
      assert path in groups.entries && Distinct(panels);
      RemoveAtDistinct(panels, i);
      forall q ensures q in rest <==> q in panels && q != panel {
        if q in rest {
          var t :| 0 <= t < |rest| && rest[t] == q;
          if t < i {
            assert rest[t] == panels[t] && t != i;
          } else {
            assert rest[t] == panels[t + 1];
          }
        }
        if q in panels && q != panel {
          var u :| 0 <= u < |panels| && panels[u] == q;
          if u < i {
            assert rest[u] == q;
          } else {
            assert u != i && rest[u - 1] == q;
          }
        }
      }
      assert rest == [] <==> panels == [panel] by {
        if panels == [panel] {
          assert |rest| == 0;
        }
        if rest == [] {
          assert |panels| == 1 && panels[0] == panel;
        }
      }
      if rest == [] {
        DeleteMeaning(groups, path);
      } else {
        SetMeaning(groups, path, rest);
      }
  }

  /** Opening a panel on a new uri and disposing it again leaves both maps
      as they were, key order included. */
  lemma {:induction false} OpenCloseRoundTrip(active: ActiveMap, groups: GroupMap, uri: string, path: string, panel: Panel)
    requires Registry(active, groups) && uri !in active.entries && panel !in GroupOf(groups, path)
    ensures active.Set(uri, panel).Delete(uri) == active
    ensures Disposed(Opened(groups, path, panel), path, panel) == groups
  {
    SetDeleteRoundTrip(active, uri, panel);
    var panels := GroupOf(groups, path);
    RemoveAppended(panels, panel);
    SetMeaning(groups, path, panels + [panel]);
    assert GroupOf(Opened(groups, path, panel), path) == panels + [panel];
    if path in groups.entries {
      assert panels != [];
      var g := Opened(groups, path, panel).Set(path, panels);
      assert g.keys == groups.keys;
      assert g.entries == groups.entries;
    } else {
      SetDeleteRoundTrip(groups, path, panels + [panel]);
    }
  }

  /** Disposal deletes the uri entry whichever panel it holds: when a second
      panel was opened on the same uri, disposing the first one leaves the
      second without an entry. */
  lemma {:induction false} SharedUriDispose(active: ActiveMap, uri: string, first: Panel, second: Panel)
    requires active.Valid()
    ensures active.Set(uri, first).Set(uri, second).Get(uri) == Some(second)
    ensures active.Set(uri, first).Set(uri, second).Delete(uri).Get(uri) == None
  {
    SetMeaning(active, uri, first);
    SetMeaning(active.Set(uri, first), uri, second);
    DeleteMeaning(active.Set(uri, first).Set(uri, second), uri);
  }

  // ----- scroll synchronisation -----

  /** The first path, in insertion order from key `i` on, whose group
      includes `source`. */
  function PathOf(groups: GroupMap, source: Panel, i: nat): (r: Option<string>)
    requires i <= |groups.keys|
    ensures r.Some? ==> r.value in groups.entries && source in groups.entries[r.value]
    decreases |groups.keys| - i
  {
    if i == |groups.keys| then None
    else if groups.keys[i] in groups.entries && source in groups.entries[groups.keys[i]] then Some(groups.keys[i])
    else PathOf(groups, source, i + 1)
  }

  /** `PathOf` finds nothing exactly when no group includes the panel. */
  lemma {:induction false} PathOfNone(groups: GroupMap, source: Panel, i: nat)
    requires groups.Valid() && i <= |groups.keys|
    ensures PathOf(groups, source, i).None? <==> forall t :: i <= t < |groups.keys| ==> source !in groups.entries[groups.keys[t]]
    decreases |groups.keys| - i
  {
    if i < |groups.keys| {
      PathOfNone(groups, source, i + 1);
    }
  }

  /** One `syncScroll` message to each member of `panels` other than the
      source, in group order. */
  function Fanout(panels: seq<Panel>, source: Panel, scrollPercent: real): seq<Post> {
    if panels == [] then []
    else
      var last := panels[|panels| - 1];
      Fanout(panels[..|panels| - 1], source, scrollPercent)
        + (if last != source then [Post(last, SyncScroll(scrollPercent))] else [])
  }

  /** Lines 89-108: the posts of `syncScroll`. An empty path is falsy and
      sends nothing. */
  function ScrollPosts(groups: GroupMap, source: Panel, scrollPercent: real): seq<Post> {
    match PathOf(groups, source, 0)
    case None => []
    case Some(path) => if path == "" then [] else Fanout(groups.entries[path], source, scrollPercent)
  }

  /** The fan-out sends `syncScroll` with the given percentage, to exactly
      the members of the group other than the source. */
  lemma {:induction false} FanoutMeaning(panels: seq<Panel>, source: Panel, scrollPercent: real)
    ensures var posts := Fanout(panels, source, scrollPercent);
      && (forall k :: 0 <= k < |posts| ==> posts[k].message == SyncScroll(scrollPercent) && posts[k].target in panels && posts[k].target != source)
      && (forall p :: p in panels && p != source ==> exists k :: 0 <= k < |posts| && posts[k].target == p)
      && |posts| <= |panels|
  {
    if panels != [] {
      var init, last := panels[..|panels| - 1], panels[|panels| - 1];
      FanoutMeaning(init, source, scrollPercent);
      var posts, rest := Fanout(panels, source, scrollPercent), Fanout(init, source, scrollPercent);
      assert forall k :: 0 <= k < |rest| ==> posts[k] == rest[k];
      assert forall p :: p in init ==> p in panels;
      forall p | p in panels && p != source
        ensures exists k :: 0 <= k < |posts| && posts[k].target == p
      {
        if p == last {
          assert posts[|posts| - 1].target == p;
        } else {
          assert p in init by {
            var t :| 0 <= t < |panels| && panels[t] == p;
            assert init[t] == p;
          }
          var k :| 0 <= k < |rest| && rest[k].target == p;
          assert posts[k].target == p;
        }
      }
    }
  }

  /** Scrolling a panel that belongs to a group (under a non-empty path)
      tells every other member of the first such group, and nobody else, to
      scroll to the same percentage; a panel in no group scrolls nobody. */
  lemma {:induction false} ScrollFanOut(groups: GroupMap, source: Panel, scrollPercent: real)
    requires groups.Valid()
    ensures var posts := ScrollPosts(groups, source, scrollPercent);
      && (forall k :: 0 <= k < |posts| ==> posts[k].message == SyncScroll(scrollPercent) && posts[k].target != source)
      && ((forall path :: path in groups.entries ==> source !in groups.entries[path]) ==> posts == [])
      && (forall path :: PathOf(groups, source, 0) == Some(path) && path != "" ==>
            forall p :: p in groups.entries[path] && p != source <==> exists k :: 0 <= k < |posts| && posts[k].target == p)
  {
    PathOfNone(groups, source, 0);
    match PathOf(groups, source, 0)
    case None =>
    case Some(path) =>
      if path != "" {
        FanoutMeaning(groups.entries[path], source, scrollPercent);
      }
  }

  /** How many of the posts go to panel `p`. */
  function PostCount(posts: seq<Post>, p: Panel): nat {
    if posts == [] then 0
    else PostCount(posts[..|posts| - 1], p) + (if posts[|posts| - 1].target == p then 1 else 0)
  }

  /** When the group lists each panel once, the fan-out sends exactly one
      `syncScroll` to every member other than the source, none to anyone
      else, and so one post fewer than the group has members when the source
      is among them. */
  lemma {:induction false} FanoutOnce(panels: seq<Panel>, source: Panel, scrollPercent: real)
    requires Distinct(panels)
    ensures var posts := Fanout(panels, source, scrollPercent);
      && (forall p :: PostCount(posts, p) == if p in panels && p != source then 1 else 0)
      && |posts| == |panels| - (if source in panels then 1 else 0)
  {
    if panels != [] {
      var init, last := panels[..|panels| - 1], panels[|panels| - 1];
      assert Distinct(init) by {
        forall a, b | 0 <= a < b < |init| ensures init[a] != init[b] {
          assert init[a] == panels[a] && init[b] == panels[b];
        }
      }
      FanoutOnce(init, source, scrollPercent);
      var posts, rest := Fanout(panels, source, scrollPercent), Fanout(init, source, scrollPercent);
      assert last !in init by {
        forall t | 0 <= t < |init| ensures init[t] != last {
          assert init[t] == panels[t];
        }
      }
      assert forall p :: p in panels <==> p in init || p == last;
      if last != source {
        assert posts[..|posts| - 1] == rest;
      } else {
        assert posts == rest;
      }
    }
  }

  /** When every group lists each panel once, scrolling a panel of a group
      (under a non-empty path) sends exactly one `syncScroll` to every other
      member of that group and none to anyone else. */
  lemma {:induction false} ScrollOnce(active: ActiveMap, groups: GroupMap, source: Panel, scrollPercent: real)
    requires Registry(active, groups)
    ensures var posts := ScrollPosts(groups, source, scrollPercent);
      forall path :: PathOf(groups, source, 0) == Some(path) && path != "" ==>
        && source in groups.entries[path]
        && (forall p :: PostCount(posts, p) == if p in groups.entries[path] && p != source then 1 else 0)
        && |posts| == |groups.entries[path]| - 1
  {
    match PathOf(groups, source, 0)
    case None =>
    case Some(path) =>
      if path != "" {
        FanoutOnce(groups.entries[path], source, scrollPercent);
      }
  }

  // ----- the diff between two views of one file -----

  /** A uri string and the panel showing it. */
  datatype Pairing = Pairing(uri: string, panel: Panel)

  /** The first uri, in insertion order from key `i` on, whose panel is `p`. */
  function UriOf(active: ActiveMap, p: Panel, i: nat): (r: Option<string>)
    requires i <= |active.keys|
    ensures r.Some? ==> r.value in active.entries && active.entries[r.value] == p
    decreases |active.keys| - i
  {
    if i == |active.keys| then None
    else if active.keys[i] in active.entries && active.entries[active.keys[i]] == p then Some(active.keys[i])
    else UriOf(active, p, i + 1)
  }

  /** Lines 117-125: the group's panels that have a uri, in group order,
      each with the first uri that maps to it. */
  function Resolved(panels: seq<Panel>, active: ActiveMap): seq<Pairing> {
    if panels == [] then []
    else
      var last := panels[|panels| - 1];
      Resolved(panels[..|panels| - 1], active)
        + (match UriOf(active, last, 0) case None => [] case Some(u) => [Pairing(u, last)])
  }

  /** The two highlight posts: the removed blocks to the first view, the
      added blocks to the second. */
  function HighlightPosts(first: Panel, second: Panel, blocks1: seq<string>, blocks2: seq<string>): seq<Post> {
    var ks := Expand(Diff(blocks1, blocks2));
    [Post(first, Highlight(Positions(SideA(ks), Removed), [])),
     Post(second, Highlight([], Positions(SideB(ks), Added)))]
  }

  /** Lines 110-166: the posts of `triggerDiffUpdate`. The documents come
      from the Word converter, whatever their extension; a failed conversion
      is caught and posts nothing. */
  function DiffPosts(active: ActiveMap, groups: GroupMap, path: string, renderDocx: string -> Result<string>): seq<Post> {
    match groups.Get(path)
    case None => []
    case Some(panels) =>
      if |panels| < 2 then []
      else
        var resolved := Resolved(panels, active);
        if |resolved| < 2 then []
        else
          match renderDocx(resolved[0].uri)
          case Failure(_) => []
          case Success(html1) =>
            match renderDocx(resolved[1].uri)
            case Failure(_) => []
            case Success(html2) => HighlightPosts(resolved[0].panel, resolved[1].panel, Blocks(html1), Blocks(html2))
  }

  /** The resolved panels are members of the group, in group order, each
      mapped from its uri. */
  lemma {:induction false} ResolvedMeaning(panels: seq<Panel>, active: ActiveMap)
    ensures var r := Resolved(panels, active);
      && |r| <= |panels|
      && (forall k :: 0 <= k < |r| ==> r[k].panel in panels && r[k].uri in active.entries && active.entries[r[k].uri] == r[k].panel)
  {
    if panels != [] {
      var init := panels[..|panels| - 1];
      ResolvedMeaning(init, active);
      var r, rest := Resolved(panels, active), Resolved(init, active);
      forall k | 0 <= k < |r|
        ensures r[k].panel in panels && r[k].uri in active.entries && active.entries[r[k].uri] == r[k].panel
      {
        if k < |rest| {
          assert r[k] == rest[k];
          var t :| 0 <= t < |init| && init[t] == rest[k].panel;
          assert panels[t] == init[t];
        }
      }
    }
  }

  /** Resolving a group whose panels are all different gives different
      panels. */
  lemma {:induction false} ResolvedDistinct(panels: seq<Panel>, active: ActiveMap)
    requires Distinct(panels)
    ensures var r := Resolved(panels, active); forall k, l :: 0 <= k < l < |r| ==> r[k].panel != r[l].panel
  {
    if panels != [] {
      var init, last := panels[..|panels| - 1], panels[|panels| - 1];
      assert Distinct(init) by {
        forall p, q | 0 <= p < q < |init| ensures init[p] != init[q] {
          assert init[p] == panels[p] && init[q] == panels[q];
        }
      }
      ResolvedDistinct(init, active);
      ResolvedMeaning(init, active);
      var r, rest := Resolved(panels, active), Resolved(init, active);
      assert last !in init by {
        forall t | 0 <= t < |init| ensures init[t] != last {
          assert init[t] == panels[t];
        }
      }
      forall k, l | 0 <= k < l < |r| ensures r[k].panel != r[l].panel {
        assert r[k] == rest[k];
        if l < |rest| {
          assert r[l] == rest[l];
        }
      }
    }
  }

  /** The removed list names blocks of the first document, the added list
      blocks of the second, each list strictly increasing, and there are as
      many as lie outside a longest common subsequence. */
  lemma {:induction false} HighlightMeaning(first: Panel, second: Panel, blocks1: seq<string>, blocks2: seq<string>)
    ensures var posts := HighlightPosts(first, second, blocks1, blocks2);
      var removed, added := posts[0].message.removed, posts[1].message.added;
      && posts[0].message.added == [] && posts[1].message.removed == []
      && StrictlyIncreasing(removed) && (forall x :: x in removed ==> x < |blocks1|)
      && StrictlyIncreasing(added) && (forall x :: x in added ==> x < |blocks2|)
      && |removed| == |blocks1| - Lcs(blocks1, blocks2, |blocks1|, |blocks2|)
      && |added| == |blocks2| - Lcs(blocks1, blocks2, |blocks1|, |blocks2|)
  {
    RemapOfDiff(blocks1, blocks2);
  }

  /** `triggerDiffUpdate` posts nothing, or exactly two highlights: the
      first to the first panel of the group that has a uri, carrying only
      removals, and the second to the next such panel, carrying only
      additions. The two panels differ whenever the group lists each panel
      once. */
  lemma {:induction false} DiffDispatch(active: ActiveMap, groups: GroupMap, path: string, renderDocx: string -> Result<string>)
    requires Registry(active, groups)
    ensures var posts := DiffPosts(active, groups, path, renderDocx);
      && (posts == [] || |posts| == 2)
      && (|GroupOf(groups, path)| < 2 ==> posts == [])
      && (|posts| == 2 ==>
            var resolved := Resolved(GroupOf(groups, path), active);
            && |resolved| >= 2
            && posts[0].target == resolved[0].panel && posts[1].target == resolved[1].panel
            && posts[0].target != posts[1].target
            && posts[0].target in GroupOf(groups, path) && posts[1].target in GroupOf(groups, path)
            && posts[0].message.Highlight? && posts[0].message.added == []
            && posts[1].message.Highlight? && posts[1].message.removed == [])
  {
    var panels := GroupOf(groups, path);
    if path in groups.entries && |panels| >= 2 {
      ResolvedMeaning(panels, active);
      ResolvedDistinct(panels, active);
    }
  }

  /** Two views of one file whose second document appends a new block to
      the first's two blocks: the first view gets no removals, the second
      view the third block as added. */
  lemma {:induction false} AppendedBlockHighlight(first: Panel, second: Panel, x: string, y: string, z: string)
    requires z != x && z != y
    ensures HighlightPosts(first, second, [x, y], [x, y, z])
      == [Post(first, Highlight([], [])), Post(second, Highlight([], [2]))]
  {
    AppendedBlockRemap(x, y, z);
  }

  // ----- webview messages -----

  /** The provider's own copy of the view settings after a message. */
  function PrefsAfterMessage(prefs: ViewState, m: Incoming): ViewState {
    match m
    case ZoomChanged(z) => prefs.(zoom := Default(z, 1.0))
    case OutlineToggled(v) => prefs.(outlineVisible := Default(v, true))
    case ThemeChanged(t) => prefs.(theme := Default(t, "auto"))
    case ToolbarToggled(v) => prefs.(toolbarVisible := Default(v, true))
    case _ => prefs
  }

  /** The renderer's state after a message: zoom and theme copy the
      provider's new value, outline and toolbar flip whatever the message
      says. */
  function RendererAfterMessage(view: ViewState, prefs: ViewState, m: Incoming): ViewState {
    match m
    case ZoomChanged(_) => view.(zoom := prefs.zoom)
    case OutlineToggled(_) => view.(outlineVisible := !view.outlineVisible)
    case ThemeChanged(_) => view.(theme := prefs.theme)
    case ToolbarToggled(_) => view.(toolbarVisible := !view.toolbarVisible)
    case _ => view
  }

  const ErrorPrefix: string := "Document Viewer Error: "

  /** What a message does besides the settings: scroll posts, the status
      bar refresh after a zoom change, and the two notifications. An info
      message is shown only when its text is non-empty. */
  function MessageEffects(m: Incoming, scrollPosts: seq<Post>): seq<Effect> {
    match m
    case Scroll(_) => seq(|scrollPosts|, k requires 0 <= k < |scrollPosts| => Send(scrollPosts[k]))
    case ZoomChanged(_) => [UpdateStatusBar]
    case ErrorReport(text) => [ShowError(ErrorPrefix + Default(text, "Unknown error"))]
    case InfoReport(text) => if text.Some? && text.value != "" then [ShowInformation(text.value)] else []
    case _ => []
  }

  /** Only the four settings messages change any state; zoom and theme end
      up equal in the provider and the renderer, and a toggle message that
      reports the flipped value keeps an agreeing flag agreeing. A toggle
      message without a value sets the provider's flag to true while the
      renderer's flips, so the two can disagree. */
  lemma {:induction false} MessageSettings(prefs: ViewState, view: ViewState, m: Incoming)
    ensures var prefs', view' := PrefsAfterMessage(prefs, m), RendererAfterMessage(view, PrefsAfterMessage(prefs, m), m);
      && (!(m.ZoomChanged? || m.OutlineToggled? || m.ThemeChanged? || m.ToolbarToggled?) ==> prefs' == prefs && view' == view)
      && (m.ZoomChanged? ==> prefs'.zoom == view'.zoom)
      && (m.ThemeChanged? ==> prefs'.theme == view'.theme)
      && ((m.OutlineToggled? && m.visible == Some(!prefs.outlineVisible) && prefs.outlineVisible == view.outlineVisible)
            ==> prefs'.outlineVisible == view'.outlineVisible)
      && (m == OutlineToggled(None) && view.outlineVisible ==> prefs'.outlineVisible != view'.outlineVisible)
      && ((m.ToolbarToggled? && m.visible == Some(!prefs.toolbarVisible) && prefs.toolbarVisible == view.toolbarVisible)
            ==> prefs'.toolbarVisible == view'.toolbarVisible)
  {
  }

  /** An error message always reaches the user, prefixed, with a stand-in
      text when it has none; an info message reaches the user exactly when
      it has non-empty text, unchanged. */
  lemma {:induction false} Notifications(m: Incoming, scrollPosts: seq<Post>)
    ensures m.ErrorReport? ==>
      && |MessageEffects(m, scrollPosts)| == 1
      && MessageEffects(m, scrollPosts)[0].ShowError?
      && |MessageEffects(m, scrollPosts)[0].text| >= |ErrorPrefix|
      && MessageEffects(m, scrollPosts)[0].text[..|ErrorPrefix|] == ErrorPrefix
    ensures m.InfoReport? ==> (MessageEffects(m, scrollPosts) != [] <==> m.message.Some? && m.message.value != "")
    ensures m.InfoReport? && MessageEffects(m, scrollPosts) != [] ==> MessageEffects(m, scrollPosts) == [ShowInformation(m.message.value)]
    ensures m.Scroll? ==> forall k :: 0 <= k < |scrollPosts| ==> MessageEffects(m, scrollPosts)[k] == Send(scrollPosts[k])
  {
    if m.ErrorReport? {
      var text := ErrorPrefix + Default(m.message, "Unknown error");
      assert text[..|ErrorPrefix|] == ErrorPrefix;
    }
  }

  // ----- commands -----

  /** The zoom-in step: below the maximum 3.0 the zoom grows by 0.1, capped
      at 3.0; at or above it nothing happens. */
  function ZoomIn(z: real): real {
    if z < 3.0 then (if z + 0.1 < 3.0 then z + 0.1 else 3.0) else z
  }

  /** The zoom-out step, with the minimum 0.5. */
  function ZoomOut(z: real): real {
    if z > 0.5 then (if z - 0.1 > 0.5 then z - 0.1 else 0.5) else z
  }

  /** The theme cycle of `handleToggleTheme`. */
  function NextTheme(theme: string): string {
    if theme == "auto" then "light" else if theme == "light" then "dark" else "auto"
  }

  /** Zooming in never lowers the zoom and never passes 3.0 from below,
      zooming out never raises it and never passes 0.5 from above, so a zoom
      in [0.5, 3.0] stays there; each step that acts moves the zoom. */
  lemma {:induction false} ZoomSteps(z: real)
    ensures ZoomIn(z) >= z && ZoomOut(z) <= z
    ensures z <= 3.0 ==> ZoomIn(z) <= 3.0
    ensures z >= 0.5 ==> ZoomOut(z) >= 0.5
    ensures 0.5 <= z <= 3.0 ==> 0.5 <= ZoomIn(z) <= 3.0 && 0.5 <= ZoomOut(z) <= 3.0
    ensures z < 3.0 ==> ZoomIn(z) > z
    ensures z > 0.5 ==> ZoomOut(z) < z
  {
  }

  /** The theme cycles auto, light, dark and back; any other value goes to
      auto. */
  lemma {:induction false} ThemeCycle(theme: string)
    ensures theme in {"auto", "light", "dark"} ==> NextTheme(NextTheme(NextTheme(theme))) == theme
    ensures theme !in {"auto", "light", "dark"} ==> NextTheme(theme) == "auto"
    ensures NextTheme(theme) != theme
  {
  }

  /** `webviewPanel || getActiveWebviewPanel()`: the given panel, or the
      panel of the earliest uri still registered. */
  function Target(webviewPanel: Option<Panel>, active: ActiveMap): Option<Panel> {
    if webviewPanel.Some? then webviewPanel
    else if active.keys != [] && active.keys[0] in active.entries then Some(active.entries[active.keys[0]])
    else None
  }

  /** The renderer's state after a settings update message. */
  function RendererApply(view: ViewState, message: Outgoing): ViewState {
    match message
    case UpdateZoom(z) => view.(zoom := z)
    case ToggleOutline(_) => view.(outlineVisible := !view.outlineVisible)
    case UpdateTheme(t) => view.(theme := t)
    case ToggleToolbar(_) => view.(toolbarVisible := !view.toolbarVisible)
    case _ => view
  }

  /** The effects of posting a settings update for a command. */
  function CommandEffects(webviewPanel: Option<Panel>, active: ActiveMap, message: Outgoing): seq<Effect> {
    match Target(webviewPanel, active)
    case None => []
    case Some(p) => [Send(Post(p, message))]
  }

  /** The renderer's state after a command's update: applied only when the
      update reached a panel. */
  function CommandView(webviewPanel: Option<Panel>, active: ActiveMap, view: ViewState, message: Outgoing): ViewState {
    if Target(webviewPanel, active).Some? then RendererApply(view, message) else view
  }

  /** A command needs a panel: the one it was given or, without one, the
      first registered panel; with no panel at all the update goes nowhere
      and the renderer keeps its state. */
  lemma {:induction false} TargetChoice(webviewPanel: Option<Panel>, active: ActiveMap)
    requires active.Valid()
    ensures Target(webviewPanel, active).None? <==> webviewPanel.None? && active.entries == map[]
    ensures webviewPanel.None? && active.keys != [] ==> Target(webviewPanel, active) == Some(active.Values()[0])
  {
    if active.keys != [] {
      assert active.keys[0] in active.keys;
    }
  }

  /** A command that reaches a panel keeps the provider and the renderer in
      step: after a zoom or theme update both hold the sent value, and a
      toggle flips the renderer's flag, so a flag that agreed with the
      provider's before agrees after. */
  lemma {:induction false} UpdateKeepsStep(prefs: ViewState, view: ViewState)
    ensures RendererApply(view, UpdateZoom(prefs.zoom)).zoom == prefs.zoom
    ensures RendererApply(view, UpdateTheme(prefs.theme)).theme == prefs.theme
    ensures view.outlineVisible == prefs.outlineVisible
      ==> RendererApply(view, ToggleOutline(!prefs.outlineVisible)).outlineVisible == !prefs.outlineVisible
    ensures view.toolbarVisible == prefs.toolbarVisible
      ==> RendererApply(view, ToggleToolbar(!prefs.toolbarVisible)).toolbarVisible == !prefs.toolbarVisible
    ensures RendererApply(view, UpdateZoom(prefs.zoom)).(zoom := view.zoom) == view
    ensures RendererApply(view, UpdateTheme(prefs.theme)).(theme := view.theme) == view
  {
  }
}
