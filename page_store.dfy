/**
 * The page store of the wiki: a page is kept in one file, named after its
 * title, under the data directory. The file system is modelled as a map
 * from file names to file contents; whether a write fails is decided by the
 * operating system and is an input here.
 */
module PageStore {
  import opened Wrappers

  /** A wiki page: its title and its raw body text. */
  datatype Page = Page(Title: string, Body: string)

  /** The files of the data directory, by full file name. */
  type Files = map<string, string>

  /** The file that holds the page with this title. */
  function FileName(dataPath: string, title: string): (r: string)
    ensures |r| == |dataPath| + |title| + 4
    ensures r[..|dataPath|] == dataPath
    ensures r[|dataPath|..|dataPath| + |title|] == title
    ensures r[|r| - 4..] == ".txt"
  {
    dataPath + title + ".txt"
  }

  /** Within one data directory, different titles name different files. */
  lemma FileNameInjective(dataPath: string, t1: string, t2: string)
    ensures FileName(dataPath, t1) == FileName(dataPath, t2) <==> t1 == t2
  {
    if FileName(dataPath, t1) == FileName(dataPath, t2) {
      var f := FileName(dataPath, t1);
      assert |t1| == |t2|;
      assert t1 == f[|dataPath|..|dataPath| + |t1|] == t2;
    }
  }

  /**
   * Writes the page body to the file named after its title, creating the
   * file or replacing all of its contents. `failure` is the error the
   * operating system reports for the write, if any; a failed write is
   * returned and the files are left as they were.
   */
  function Save(files: Files, dataPath: string, p: Page, failure: Option<string>): (r: Result<Files, string>)
    ensures failure.Some? ==> r == Err(failure.value)
    ensures failure.None? ==> r.Ok?
    ensures r.Ok? ==> r.value.Keys == files.Keys + {FileName(dataPath, p.Title)}
    ensures r.Ok? ==> r.value[FileName(dataPath, p.Title)] == p.Body
    ensures r.Ok? ==> forall f :: f in files && f != FileName(dataPath, p.Title) ==> r.value[f] == files[f]
  {
    match failure
    case Some(e) => Err(e)
    case None => Ok(files[FileName(dataPath, p.Title) := p.Body])
  }

  /**
   * Reads the page with this title. Any read failure is reported as a
   * missing page; a page that is found carries the requested title and the
   * whole file contents as its body.
   */
  function Load(files: Files, dataPath: string, title: string): (r: Option<Page>)
    ensures r.Some? <==> FileName(dataPath, title) in files
    ensures r.Some? ==> r.value.Title == title && r.value.Body == files[FileName(dataPath, title)]
  {
    var f := FileName(dataPath, title);
    if f in files then Some(Page(title, files[f])) else None
  }

  /** A successful save followed by a load of the same title gives back the page. */
  lemma SaveLoad(files: Files, dataPath: string, p: Page)
    ensures Save(files, dataPath, p, None).Ok?
    ensures Load(Save(files, dataPath, p, None).value, dataPath, p.Title) == Some(p)
  {
  }

  /** Saving a page leaves every other title's page as it was. */
  lemma SaveKeepsOthers(files: Files, dataPath: string, p: Page, title: string)
    requires title != p.Title
    ensures Load(Save(files, dataPath, p, None).value, dataPath, title) == Load(files, dataPath, title)
  {
    FileNameInjective(dataPath, p.Title, title);
  }

  /** A save replaces the previous contents: of two saves of one title, the last wins. */
  lemma SaveOverwrites(files: Files, dataPath: string, p: Page, q: Page)
    requires p.Title == q.Title
    ensures Save(Save(files, dataPath, p, None).value, dataPath, q, None) == Save(files, dataPath, q, None)
  {
    var f := FileName(dataPath, p.Title);
    assert files[f := p.Body][f := q.Body] == files[f := q.Body];
  }
}
