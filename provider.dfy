/** The custom editor provider: the registry of open panels by uri and by
    file, the view settings it shares with the renderer, and the handlers
    for panel lifecycle, webview messages and commands. Host calls (posting
    to a webview, notifications, the status bar command) are returned as
    effects. */
module EditorProvider {
  import opened Text
  import opened JsCollections
  import opened SequenceDiff
  import opened IndexRemap
  import opened BlockExtract
  import opened Renderer
  import opened ProviderRules

  class DocxEditorProvider {
    var activeWebviewPanels: ActiveMap
    var panelsByPath: GroupMap
    var currentZoom: real
    var outlineVisible: bool
    var currentTheme: string
    var toolbarVisible: bool
    /** The renderer's static state, shared by every provider call. */
    const renderer: DocumentRenderer

    ghost predicate Valid()
      reads this
    {
      Registry(activeWebviewPanels, panelsByPath)
    }

    function Prefs(): ViewState
      reads this
    {
      ViewState(currentZoom, outlineVisible, currentTheme, toolbarVisible)
    }

    /** Lines 9-14 of docxEditorProvider.ts: empty maps, zoom 1.0, outline
        shown, theme auto, toolbar shown. */
    constructor(renderer: DocumentRenderer)
      ensures Valid()
      ensures activeWebviewPanels == EmptyMap() && panelsByPath == EmptyMap()
      ensures Prefs() == ViewState(1.0, true, "auto", true)
      ensures this.renderer == renderer
    {
      activeWebviewPanels := EmptyMap();
      panelsByPath := EmptyMap();
      currentZoom := 1.0;
      outlineVisible := true;
      currentTheme := "auto";
      toolbarVisible := true;
      this.renderer := renderer;
    }

    /** Lines 16-54: register the panel under its uri and its file, render
        the document into it, and when the file now has two or more panels,
        compute the diff. The host hands over a panel that is not registered
        yet. */
    method ResolveCustomEditor(uri: string, fsPath: string, panel: Panel, settings: Settings,
                               renderDocx: string -> Result<string>, renderOdt: string -> Result<string>)
      returns (page: Page, posts: seq<Post>)
      requires Valid() && panel !in GroupOf(panelsByPath, fsPath)
      modifies this, renderer
      ensures Valid()
      ensures activeWebviewPanels == old(activeWebviewPanels).Set(uri, panel)
      ensures panelsByPath == Opened(old(panelsByPath), fsPath, panel)
      ensures Prefs() == old(Prefs())
      ensures renderer.View() == ViewState(ZoomLevel(settings), ShowOutline(settings), Theme(settings), old(renderer.toolbarVisible))
      ensures page == PageFor(uri, fsPath, settings, renderer.View(), renderDocx, renderOdt)
      ensures posts == if |GroupOf(panelsByPath, fsPath)| >= 2 then DiffPosts(activeWebviewPanels, panelsByPath, fsPath, renderDocx) else []
    {
      OpenedRegistry(activeWebviewPanels, panelsByPath, uri, fsPath, panel);
      activeWebviewPanels := activeWebviewPanels.Set(uri, panel);
      var panels := Default(panelsByPath.Get(fsPath), []);
      panels := panels + [panel];
      panelsByPath := panelsByPath.Set(fsPath, panels);
      page := renderer.RenderDocument(uri, fsPath, settings, renderDocx, renderOdt);
      if |panels| >= 2 {
        posts := TriggerDiffUpdate(fsPath, renderDocx);
      } else {
        posts := [];
      }
    }

    /** Lines 35-47: the `onDidDispose` callback registered for the panel. */
    method OnDidDispose(uri: string, fsPath: string, panel: Panel)
      requires Valid()
      modifies this
      ensures Valid()
      ensures activeWebviewPanels == old(activeWebviewPanels).Delete(uri)
      ensures panelsByPath == Disposed(old(panelsByPath), fsPath, panel)
      ensures Prefs() == old(Prefs())
    {
      DisposedRegistry(activeWebviewPanels, panelsByPath, uri, fsPath, panel);
      activeWebviewPanels := activeWebviewPanels.Delete(uri);
      var panels := Default(panelsByPath.Get(fsPath), []);
      var idx := IndexOf(panels, panel);
      if idx.Some? {
        panels := RemoveAt(panels, idx.value);
        if |panels| == 0 {
          panelsByPath := panelsByPath.Delete(fsPath);
        } else {
          panelsByPath := panelsByPath.Set(fsPath, panels);
        }
      }
    }

    /** Lines 89-108: find the first group holding the source panel and
        post the percentage to its other members. */
    method SyncScroll(sourcePanel: Panel, scrollPercent: real) returns (posts: seq<Post>)
      requires Valid()
      ensures posts == ScrollPosts(panelsByPath, sourcePanel, scrollPercent)
    {
      var targetPath: Option<string> := None;
      var i := 0;
      while i < |panelsByPath.keys|
        invariant i <= |panelsByPath.keys|
        invariant PathOf(panelsByPath, sourcePanel, i) == PathOf(panelsByPath, sourcePanel, 0)
        decreases |panelsByPath.keys| - i
      {
        var path := panelsByPath.keys[i];
        assert path in panelsByPath.keys;
        if sourcePanel in panelsByPath.entries[path] {
          targetPath := Some(path);
          break;
        }
        i := i + 1;
      }
      posts := [];
      if targetPath.Some? && targetPath.value != "" {
        var panels := panelsByPath.entries[targetPath.value];
        for j := 0 to |panels|
          invariant posts == Fanout(panels[..j], sourcePanel, scrollPercent)
        {
          assert panels[..j + 1][..j] == panels[..j];
          if panels[j] != sourcePanel {
            posts := posts + [Post(panels[j], Outgoing.SyncScroll(scrollPercent))];
          }
        }
        assert panels[..|panels|] == panels;
      }
    }

    /** The inner loop of lines 118-124: the first uri whose panel is `p`. */
    method FindUri(p: Panel) returns (uri: Option<string>)
      requires activeWebviewPanels.Valid()
      ensures uri == UriOf(activeWebviewPanels, p, 0)
    {
      uri := None;
      var j := 0;
      while j < |activeWebviewPanels.keys|
        invariant j <= |activeWebviewPanels.keys|
        invariant UriOf(activeWebviewPanels, p, j) == UriOf(activeWebviewPanels, p, 0)
        decreases |activeWebviewPanels.keys| - j
      {
        var uriStr := activeWebviewPanels.keys[j];
        assert uriStr in activeWebviewPanels.keys;
        if activeWebviewPanels.entries[uriStr] == p {
          uri := Some(uriStr);
          break;
        }
        j := j + 1;
      }
    }

    /** Lines 110-166: pair the group's panels with their uris, convert the
        first two documents, diff their blocks and post the highlights. The
        uris and panels are kept as one list of pairs. */
    method TriggerDiffUpdate(fsPath: string, renderDocx: string -> Result<string>) returns (posts: seq<Post>)
      requires Valid()
      ensures posts == DiffPosts(activeWebviewPanels, panelsByPath, fsPath, renderDocx)
    {
      posts := [];
      var found := panelsByPath.Get(fsPath);
      if found.None? || |found.value| < 2 {
        return;
      }
      var panels := found.value;
      var ordered: seq<Pairing> := [];
      for i := 0 to |panels|
        invariant ordered == Resolved(panels[..i], activeWebviewPanels)
      {
        assert panels[..i + 1][..i] == panels[..i];
        var uri := FindUri(panels[i]);
        if uri.Some? {
          ordered := ordered + [Pairing(uri.value, panels[i])];
        }
      }
      assert panels[..|panels|] == panels;
      if |ordered| < 2 {
        return;
      }
      var converted1 := renderDocx(ordered[0].uri);
      if converted1.Failure? {
        return;
      }
      var converted2 := renderDocx(ordered[1].uri);
      if converted2.Failure? {
        return;
      }
      var paras1 := ExtractParagraphText(converted1.value);
      var paras2 := ExtractParagraphText(converted2.value);
      var diff := DiffArrays(paras1, paras2);
      var p1Removals, p2Additions, _, _ := RemapIndices(diff);
      posts := [Post(ordered[0].panel, Highlight(p1Removals, [])), Post(ordered[1].panel, Highlight([], p2Additions))];
    }

    /** Lines 56-87: a message from the webview of `webviewPanel`. */
    method HandleWebviewMessage(message: Incoming, webviewPanel: Panel) returns (effects: seq<Effect>)
      requires Valid()
      modifies this, renderer
      ensures Valid()
      ensures activeWebviewPanels == old(activeWebviewPanels) && panelsByPath == old(panelsByPath)
      ensures Prefs() == PrefsAfterMessage(old(Prefs()), message)
      ensures renderer.View() == RendererAfterMessage(old(renderer.View()), Prefs(), message)
      ensures effects == MessageEffects(message,
        if message.Scroll? then ScrollPosts(panelsByPath, webviewPanel, Default(message.scrollPercent, 0.0)) else [])
    {
      match message {
        case Scroll(scrollPercent) =>
          var posts := SyncScroll(webviewPanel, Default(scrollPercent, 0.0));
          effects := seq(|posts|, k requires 0 <= k < |posts| => Send(posts[k]));
        case ZoomChanged(zoom) =>
          currentZoom := Default(zoom, 1.0);
          renderer.UpdateZoom(currentZoom);
          effects := [UpdateStatusBar];
        case OutlineToggled(visible) =>
          outlineVisible := Default(visible, true);
          renderer.ToggleOutline();
          effects := [];
        case ThemeChanged(theme) =>
          currentTheme := Default(theme, "auto");
          renderer.UpdateTheme(currentTheme);
          effects := [];
        case ToolbarToggled(visible) =>
          toolbarVisible := Default(visible, true);
          renderer.ToggleToolbar();
          effects := [];
        case ErrorReport(text) =>
          effects := [ShowError(ErrorPrefix + Default(text, "Unknown error"))];
        case InfoReport(text) =>
          if text.Some? && text.value != "" {
            effects := [ShowInformation(text.value)];
          } else {
            effects := [];
          }
        case OtherCommand =>
          effects := [];
      }
    }

    /** Lines 273-303: post a settings update to the given panel, or else
        to the first registered one, and apply it to the renderer; with no
        panel nothing happens. */
    method SendUpdate(webviewPanel: Option<Panel>, message: Outgoing) returns (effects: seq<Effect>)
      modifies renderer
      ensures var target := Target(webviewPanel, activeWebviewPanels);
        && (target.Some? ==> effects == [Send(Post(target.value, message))] && renderer.View() == RendererApply(old(renderer.View()), message))
        && (target.None? ==> effects == [] && renderer.View() == old(renderer.View()))
    {
      var panel := Target(webviewPanel, activeWebviewPanels);
      effects := [];
      if panel.Some? {
        effects := [Send(Post(panel.value, message))];
        match message {
          case UpdateZoom(z) => renderer.UpdateZoom(z);
          case ToggleOutline(_) => renderer.ToggleOutline();
          case UpdateTheme(t) => renderer.UpdateTheme(t);
          case ToggleToolbar(_) => renderer.ToggleToolbar();
          case _ =>
        }
      }
    }

    /** Lines 230-236. */
    method HandleZoomIn(webviewPanel: Option<Panel>) returns (effects: seq<Effect>)
      modifies this, renderer
      ensures activeWebviewPanels == old(activeWebviewPanels) && panelsByPath == old(panelsByPath)
      ensures Prefs() == old(Prefs()).(zoom := ZoomIn(old(currentZoom)))
      ensures old(currentZoom) < 3.0 ==>
        && effects == CommandEffects(webviewPanel, activeWebviewPanels, UpdateZoom(currentZoom)) + [UpdateStatusBar]
        && renderer.View() == CommandView(webviewPanel, activeWebviewPanels, old(renderer.View()), UpdateZoom(currentZoom))
      ensures old(currentZoom) >= 3.0 ==> effects == [] && renderer.View() == old(renderer.View())
    {
      effects := [];
      if currentZoom < 3.0 {
        currentZoom := ZoomIn(currentZoom);
        effects := SendUpdate(webviewPanel, UpdateZoom(currentZoom));
        effects := effects + [UpdateStatusBar];
      }
    }

    /** Lines 238-244. */
    method HandleZoomOut(webviewPanel: Option<Panel>) returns (effects: seq<Effect>)
      modifies this, renderer
      ensures activeWebviewPanels == old(activeWebviewPanels) && panelsByPath == old(panelsByPath)
      ensures Prefs() == old(Prefs()).(zoom := ZoomOut(old(currentZoom)))
      ensures old(currentZoom) > 0.5 ==>
        && effects == CommandEffects(webviewPanel, activeWebviewPanels, UpdateZoom(currentZoom)) + [UpdateStatusBar]
        && renderer.View() == CommandView(webviewPanel, activeWebviewPanels, old(renderer.View()), UpdateZoom(currentZoom))
      ensures old(currentZoom) <= 0.5 ==> effects == [] && renderer.View() == old(renderer.View())
    {
      effects := [];
      if currentZoom > 0.5 {
        currentZoom := ZoomOut(currentZoom);
        effects := SendUpdate(webviewPanel, UpdateZoom(currentZoom));
        effects := effects + [UpdateStatusBar];
      }
    }

    /** Lines 246-250. */
    method HandleResetZoom(webviewPanel: Option<Panel>) returns (effects: seq<Effect>)
      modifies this, renderer
      ensures activeWebviewPanels == old(activeWebviewPanels) && panelsByPath == old(panelsByPath)
      ensures Prefs() == old(Prefs()).(zoom := 1.0)
      ensures effects == CommandEffects(webviewPanel, activeWebviewPanels, UpdateZoom(1.0)) + [UpdateStatusBar]
      ensures renderer.View() == CommandView(webviewPanel, activeWebviewPanels, old(renderer.View()), UpdateZoom(1.0))
    {
      currentZoom := 1.0;
      effects := SendUpdate(webviewPanel, UpdateZoom(currentZoom));
      effects := effects + [UpdateStatusBar];
    }

    /** Lines 252-255. */
    method HandleToggleOutline(webviewPanel: Option<Panel>) returns (effects: seq<Effect>)
      modifies this, renderer
      ensures activeWebviewPanels == old(activeWebviewPanels) && panelsByPath == old(panelsByPath)
      ensures Prefs() == old(Prefs()).(outlineVisible := !old(outlineVisible))
      ensures effects == CommandEffects(webviewPanel, activeWebviewPanels, ToggleOutline(outlineVisible))
      ensures renderer.View() == CommandView(webviewPanel, activeWebviewPanels, old(renderer.View()), ToggleOutline(outlineVisible))
    {
      outlineVisible := !outlineVisible;
      effects := SendUpdate(webviewPanel, ToggleOutline(outlineVisible));
    }

    /** Lines 257-266. */
    method HandleToggleTheme(webviewPanel: Option<Panel>) returns (effects: seq<Effect>)
      modifies this, renderer
      ensures activeWebviewPanels == old(activeWebviewPanels) && panelsByPath == old(panelsByPath)
      ensures Prefs() == old(Prefs()).(theme := NextTheme(old(currentTheme)))
      ensures effects == CommandEffects(webviewPanel, activeWebviewPanels, UpdateTheme(currentTheme))
      ensures renderer.View() == CommandView(webviewPanel, activeWebviewPanels, old(renderer.View()), UpdateTheme(currentTheme))
    {
      if currentTheme == "auto" {
        currentTheme := "light";
      } else if currentTheme == "light" {
        currentTheme := "dark";
      } else {
        currentTheme := "auto";
      }
      effects := SendUpdate(webviewPanel, UpdateTheme(currentTheme));
    }

    /** Lines 268-271. */
    method HandleToggleToolbar(webviewPanel: Option<Panel>) returns (effects: seq<Effect>)
      modifies this, renderer
      ensures activeWebviewPanels == old(activeWebviewPanels) && panelsByPath == old(panelsByPath)
      ensures Prefs() == old(Prefs()).(toolbarVisible := !old(toolbarVisible))
      ensures effects == CommandEffects(webviewPanel, activeWebviewPanels, ToggleToolbar(toolbarVisible))
      ensures renderer.View() == CommandView(webviewPanel, activeWebviewPanels, old(renderer.View()), ToggleToolbar(toolbarVisible))
    {
      toolbarVisible := !toolbarVisible;
      effects := SendUpdate(webviewPanel, ToggleToolbar(toolbarVisible));
    }

    /** Lines 305-308: the panel of the earliest registered uri. */
    method GetActiveWebviewPanel() returns (panel: Option<Panel>)
      requires Valid()
      ensures panel == Target(None, activeWebviewPanels)
      ensures panel.None? <==> activeWebviewPanels.entries == map[]
    {
      TargetChoice(None, activeWebviewPanels);
      var panels := activeWebviewPanels.Values();
      panel := if |panels| > 0 then Some(panels[0]) else None;
    }

    /** Lines 314-316. */
    function HasActiveWebviewPanels(): (r: bool)
      requires Valid()
      reads this
      ensures r <==> activeWebviewPanels.entries != map[]
    {
      TargetChoice(None, activeWebviewPanels);
      activeWebviewPanels.Size() > 0
    }
  }
}
