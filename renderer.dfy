/** The document renderer: the view settings it keeps between renders, and
    `renderDocument`, which picks the converter by file extension, runs the
    heading pass over the converted HTML and fills the viewer page, or shows
    an error page. */
module Renderer {
  import opened Text
  import opened HeadingIds
  import opened Outline

  datatype Result<T> = Success(value: T) | Failure(error: string)

  /** The `quickdoc` settings `renderDocument` reads; `None` is a setting
      that is not configured. */
  datatype Settings = Settings(font: Option<string>, theme: Option<string>, zoomLevel: Option<real>, showOutline: Option<bool>)

  function Font(s: Settings): string {
    if s.font.Some? then s.font.value else "Arial"
  }

  function Theme(s: Settings): string {
    if s.theme.Some? then s.theme.value else "auto"
  }

  function ZoomLevel(s: Settings): real {
    if s.zoomLevel.Some? then s.zoomLevel.value else 1.0
  }

  function ShowOutline(s: Settings): bool {
    if s.showOutline.Some? then s.showOutline.value else false
  }

  /** The renderer's view state as the page's script and toolbar embed it. */
  datatype ViewState = ViewState(zoom: real, outlineVisible: bool, theme: string, toolbarVisible: bool)

  /** What ends up in the panel: the viewer around the processed document,
      or an error page with a title and a message. */
  datatype Page =
    | Viewer(documentHtml: string, outlineHtml: string, font: string, themeClass: string, filePath: string, view: ViewState)
    | ErrorPage(title: string, message: string)

  datatype Format = Docx | Odt | Unsupported

  predicate EndsWith(s: string, suffix: string) {
    |suffix| <= |s| && s[|s| - |suffix|..] == suffix
  }

  /** Lines 30 and 33 of render.ts: the extension test on the lower-cased
      path. */
  function FormatOf(path: string): Format {
    var lower := Lower(path);
    if EndsWith(lower, ".docx") then Docx
    else if EndsWith(lower, ".odt") then Odt
    else Unsupported
  }

  /** The body class for the configured theme. */
  function ThemeClass(theme: string): (r: string)
    ensures r == "vscode-dark" <==> theme == "dark"
    ensures r == "vscode-light" <==> theme == "light"
  {
    if theme == "dark" then "vscode-dark"
    else if theme == "light" then "vscode-light"
    else "vscode-theme-auto"
  }

  const UnsupportedTitle: string := "Unsupported file format"
  const UnsupportedMessage: string := "Only .docx and .odt files are supported."
  const FailedTitle: string := "Failed to load document"

  /** The converter's result for the file's format: mammoth for `.docx`,
      the ODT converter otherwise. */
  function Converted(uri: string, format: Format,
                     renderDocx: string -> Result<string>, renderOdt: string -> Result<string>): Result<string>
  {
    if format == Docx then renderDocx(uri) else renderOdt(uri)
  }

  /** The page `renderDocument` leaves in the panel, given the settings, the
      view state after they were applied, and what the converter for the
      file's format gives for `uri`. */
  function PageFor(uri: string, docPath: string, settings: Settings, view: ViewState,
                   renderDocx: string -> Result<string>, renderOdt: string -> Result<string>): Page
  {
    var format := FormatOf(docPath);
    if format == Unsupported then ErrorPage(UnsupportedTitle, UnsupportedMessage)
    else
      match Converted(uri, format, renderDocx, renderOdt)
      case Failure(message) => ErrorPage(FailedTitle, message)
      case Success(html) =>
        var processed := ProcessFrom(html, 0, 0);
        Viewer(processed.html, GenerateOutlineHtml(processed.outline), Font(settings), ThemeClass(Theme(settings)), docPath, view)
  }

  /** The renderer's static state. */
  class DocumentRenderer {
    var currentZoom: real
    var outlineVisible: bool
    var currentTheme: string
    var toolbarVisible: bool

    function View(): ViewState
      reads this
    {
      ViewState(currentZoom, outlineVisible, currentTheme, toolbarVisible)
    }

    /** The initial values of the static fields. */
    constructor()
      ensures View() == ViewState(1.0, false, "auto", true)
    {
      currentZoom := 1.0;
      outlineVisible := false;
      currentTheme := "auto";
      toolbarVisible := true;
    }

    method UpdateZoom(zoom: real)
      modifies this
      ensures View() == old(View()).(zoom := zoom)
    {
      currentZoom := zoom;
    }

    method ToggleOutline()
      modifies this
      ensures View() == old(View()).(outlineVisible := !old(outlineVisible))
    {
      outlineVisible := !outlineVisible;
    }

    method UpdateTheme(theme: string)
      modifies this
      ensures View() == old(View()).(theme := theme)
    {
      currentTheme := theme;
    }

    method ToggleToolbar()
      modifies this
      ensures View() == old(View()).(toolbarVisible := !old(toolbarVisible))
    {
      toolbarVisible := !toolbarVisible;
    }

    /** Lines 12-57 of render.ts: the zoom, outline and theme settings are
        applied first, whatever the format; then the page is built from the
        converter's output, or is an error page. */
    method RenderDocument(uri: string, docPath: string, settings: Settings,
                          renderDocx: string -> Result<string>, renderOdt: string -> Result<string>) returns (page: Page)
      modifies this
      ensures View() == ViewState(ZoomLevel(settings), ShowOutline(settings), Theme(settings), old(toolbarVisible))
      ensures page == PageFor(uri, docPath, settings, View(), renderDocx, renderOdt)
    {
      currentZoom := ZoomLevel(settings);
      outlineVisible := ShowOutline(settings);
      currentTheme := Theme(settings);
      var format := FormatOf(docPath);
      if format == Unsupported {
        page := ErrorPage(UnsupportedTitle, UnsupportedMessage);
        return;
      }
      var converted := if format == Docx then renderDocx(uri) else renderOdt(uri);
      match converted {
        case Failure(message) =>
          page := ErrorPage(FailedTitle, message);
        case Success(documentHtml) =>
          var html, outline := ProcessDocumentHtmlAndExtractOutline(documentHtml);
          page := Viewer(html, GenerateOutlineHtml(outline), Font(settings), ThemeClass(Theme(settings)), docPath, View());
      }
    }
  }

  // ----- properties -----

  /** The extension test ignores ASCII case: a path ending in `.docx` or
      `.DOCX` is a Word document, one ending in `.odt` or `.ODT` an
      OpenDocument text. */
  lemma {:induction false} FormatBySuffix(stem: string)
    ensures FormatOf(stem + ".docx") == Docx && FormatOf(stem + ".DOCX") == Docx
    ensures FormatOf(stem + ".odt") == Odt && FormatOf(stem + ".ODT") == Odt
  {
    assert Lower(".DOCX") == ".docx";
    assert Lower(".docx") == ".docx";
    assert Lower(".ODT") == ".odt";
    assert Lower(".odt") == ".odt";
    DocxSuffix(stem, ".docx");
    DocxSuffix(stem, ".DOCX");
    OdtSuffix(stem, ".odt");
    OdtSuffix(stem, ".ODT");
  }

  lemma {:induction false} DocxSuffix(stem: string, suffix: string)
    requires Lower(suffix) == ".docx"
    ensures FormatOf(stem + suffix) == Docx
  {
    LowerSuffix(stem, suffix);
  }

  lemma {:induction false} OdtSuffix(stem: string, suffix: string)
    requires Lower(suffix) == ".odt"
    ensures FormatOf(stem + suffix) == Odt
  {
    LowerSuffix(stem, suffix);
    var l := Lower(stem + suffix);
    assert l[|l| - 1] == 't';
    assert ".docx"[4] == 'x';
  }

  /** The lower-cased path ends with the lower-cased suffix. */
  lemma {:induction false} LowerSuffix(stem: string, suffix: string)
    ensures var l := Lower(stem + suffix); |l| >= |suffix| && l[|l| - |suffix|..] == Lower(suffix)
  {
    var l, lowered := Lower(stem + suffix), Lower(suffix);
    forall t | 0 <= t < |lowered| ensures l[|stem| + t] == lowered[t] {
      assert (stem + suffix)[|stem| + t] == suffix[t];
    }
  }

  /** The page is an error page exactly when the format is unsupported or the
      converter fails; the unsupported-format page and the converter's own
      message are the two error pages. */
  lemma {:induction false} ErrorPages(uri: string, docPath: string, settings: Settings, view: ViewState,
                                      renderDocx: string -> Result<string>, renderOdt: string -> Result<string>)
    ensures var page := PageFor(uri, docPath, settings, view, renderDocx, renderOdt);
      && (FormatOf(docPath) == Unsupported ==> page == ErrorPage(UnsupportedTitle, UnsupportedMessage))
      && (FormatOf(docPath) == Docx && renderDocx(uri).Failure? ==> page == ErrorPage(FailedTitle, renderDocx(uri).error))
      && (FormatOf(docPath) == Odt && renderOdt(uri).Failure? ==> page == ErrorPage(FailedTitle, renderOdt(uri).error))
      && (page.Viewer? <==> (FormatOf(docPath) == Docx && renderDocx(uri).Success?)
                            || (FormatOf(docPath) == Odt && renderOdt(uri).Success?))
  {
  }

  /** For either supported format, a viewer page shows the converted
      document with its headings given ids, and an outline whose entries
      have pairwise different ids; the placeholder stands in for the outline
      exactly when no heading has text. */
  lemma {:induction false} ViewerPage(uri: string, docPath: string, settings: Settings, view: ViewState,
                                      renderDocx: string -> Result<string>, renderOdt: string -> Result<string>)
    requires FormatOf(docPath) != Unsupported && Converted(uri, FormatOf(docPath), renderDocx, renderOdt).Success?
    ensures var html := Converted(uri, FormatOf(docPath), renderDocx, renderOdt).value;
      var page, processed := PageFor(uri, docPath, settings, view, renderDocx, renderOdt), ProcessFrom(html, 0, 0);
      && page.Viewer? && page.documentHtml == processed.html
      && page.outlineHtml == GenerateOutlineHtml(processed.outline)
      && (page.outlineHtml == Placeholder <==> processed.outline == [])
      && (forall t, u :: 0 <= t < u < |processed.outline| ==> processed.outline[t].id != processed.outline[u].id)
      && page.font == Font(settings) && page.view == view
  {
    OutlineIdsDistinct(Converted(uri, FormatOf(docPath), renderDocx, renderOdt).value);
  }

  /** The page's body class follows the configured theme: dark and light
      get their own class, every other value the automatic one. */
  lemma {:induction false} ThemeClasses(theme: string)
    ensures ThemeClass(theme) in {"vscode-dark", "vscode-light", "vscode-theme-auto"}
    ensures theme != "dark" && theme != "light" ==> ThemeClass(theme) == "vscode-theme-auto"
  {
  }
}
