/**
 * The page display and the decisions of the view, edit and save handlers,
 * over the page store. The HTTP layer is reduced to the response each
 * handler chooses: a redirect, a page handed to the view or edit template,
 * or a server error.
 */
module Handlers {
  import opened Wrappers
  import opened LinkRender
  import opened PageStore

  /** What the view template receives: the title and the rendered body. */
  datatype Display = Display(Title: string, Body: string)

  /**
   * The response a handler chooses. `Abort` ends the request with an HTTP
   * status and records an error for the server's error handling; the client
   * receives the status with an empty body, not the error.
   */
  datatype Response =
    | Redirect(location: string)
    | ShowView(display: Display)
    | ShowEdit(page: Page)
    | Abort(status: int, recorded: string)

  /** The HTTP status of an internal server error. */
  const InternalServerError := 500

  /**
   * The display record of a page: its title unchanged and its body with
   * every inline link rendered. The rendered body holds no link token, so
   * nothing in it would be expanded again.
   */
  function PageDisplay(p: Page): (r: Display)
    ensures r.Title == p.Title
    ensures r.Body == Render(p.Body)
    ensures NoLink(r.Body)
    ensures r.Body == p.Body <==> NoLink(p.Body)
  {
    RenderNoLinkOutput(p.Body);
    RenderUnchangedIff(p.Body);
    Display(p.Title, Render(p.Body))
  }

  /**
   * GET /view/{title}: a page that cannot be loaded redirects to its edit
   * form; a loaded page is shown rendered.
   */
  function Viewing(files: Files, dataPath: string, title: string): (r: Response)
    ensures r.Redirect? <==> Load(files, dataPath, title).None?
    ensures r.Redirect? ==> r.location == "/edit/" + title
    ensures !r.Redirect? ==> r == ShowView(PageDisplay(Page(title, files[FileName(dataPath, title)])))
  {
    match Load(files, dataPath, title)
    case None => Redirect("/edit/" + title)
    case Some(p) => ShowView(PageDisplay(p))
  }

  /**
   * GET /edit/{title}: the edit form shows the stored page, or a new page
   * with that title and an empty body when it cannot be loaded.
   */
  function Editing(files: Files, dataPath: string, title: string): (r: Response)
    ensures r.ShowEdit? && r.page.Title == title
    ensures Load(files, dataPath, title).None? ==> r.page.Body == ""
    ensures Load(files, dataPath, title).Some? ==> r.page.Body == files[FileName(dataPath, title)]
  {
    match Load(files, dataPath, title)
    case None => ShowEdit(Page(title, ""))
    case Some(p) => ShowEdit(p)
  }

  /**
   * POST /save/{title}: stores the submitted body under the title and
   * redirects to the page's view. A failed write aborts the request with
   * status 500 and records the write's error; in the model the files are
   * then as they were. A successful write changes only the page's own file.
   */
  function Saving(files: Files, dataPath: string, title: string, body: string, failure: Option<string>)
    : (r: (Files, Response))
    ensures failure.Some? ==> r == (files, Abort(InternalServerError, failure.value))
    ensures failure.None? ==> r.1 == Redirect("/view/" + title)
    ensures failure.None? ==> Load(r.0, dataPath, title) == Some(Page(title, body))
    ensures failure.None? ==> r.0.Keys == files.Keys + {FileName(dataPath, title)}
    ensures failure.None? ==> forall f :: f in files && f != FileName(dataPath, title) ==> r.0[f] == files[f]
  {
    match Save(files, dataPath, Page(title, body), failure)
    case Err(e) => (files, Abort(InternalServerError, e))
    case Ok(files') => (files', Redirect("/view/" + title))
  }

  /**
   * After a successful save, viewing the page shows the saved body rendered,
   * while the edit form shows it raw: the store keeps the body as written
   * and rendering happens only when the page is viewed.
   */
  lemma SaveThenViewAndEdit(files: Files, dataPath: string, title: string, body: string)
    ensures Viewing(Saving(files, dataPath, title, body, None).0, dataPath, title)
         == ShowView(Display(title, Render(body)))
    ensures Editing(Saving(files, dataPath, title, body, None).0, dataPath, title)
         == ShowEdit(Page(title, body))
  {
  }

  /**
   * A missing front page: viewing it redirects to its edit form, and the
   * edit form offers a page titled FrontPage with an empty body.
   */
  lemma MissingFrontPage(files: Files, dataPath: string)
    requires FileName(dataPath, "FrontPage") !in files
    ensures Viewing(files, dataPath, "FrontPage") == Redirect("/edit/FrontPage")
    ensures Editing(files, dataPath, "FrontPage") == ShowEdit(Page("FrontPage", ""))
  {
  }
}
