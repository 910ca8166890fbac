# A model of the Go wiki's pages, store and link rendering

The wiki keeps one page per file. A page has a title and a body. The body of
page `T` lives in the file `dataPath + T + ".txt"`. Three HTTP handlers work
on these pages:

- `GET /view/{title}` loads the page and shows it rendered.
- `GET /edit/{title}` loads the page into an edit form.
- `POST /save/{title}` writes a new body and redirects to the view.

When a page is rendered, every inline link `[Name]` in its body becomes an
anchor to `/view/Name`. A link name is one or more ASCII letters or digits.
Links are found leftmost-first and without overlap, in a single pass over the
body. The anchors that are inserted are never scanned again.

The model has five modules:

- `LinkRender` (`link_render.dfy`) holds the renderer.
  - `Render` scans the body. At each position, `MatchLen` checks whether a link
    token starts there. If one does, its anchor is emitted and the scan goes on
    after the token. Otherwise one character is copied.
  - `IsLinkToken` describes the pattern `\[([a-zA-Z0-9]+)\]` on its own terms.
  - `NoLink` says that no substring matches the pattern.
  - The lemmas tie the scanner to these definitions:
    - the leftmost-first step;
    - the identity on bodies without links;
    - distribution over splits that no match crosses;
    - that the output holds no link token, and so idempotence.
- `PageStore` (`page_store.dfy`) holds the page record `Page` (the `Page`
  struct of wiki.go:14-17), the file name of a title, and saving and loading
  over a map from file names to contents.
- `Handlers` (`handlers.dfy`) holds:
  - the display record `Display` that the view template receives (the map
    built at wiki.go:38-44, with its `Title` and `Body` entries);
  - the response each of the view, edit and save handlers chooses.
- `RenderExamples` (`render_examples.dfy`) holds concrete bodies and their
  rendering.
- `Strings` and `Wrappers` hold generic facts about slices, and the
  `Option` and `Result` types.

## Model

| member | source | states |
|---|---|---|
| LinkRender.IsLinkToken | wiki.go:36 | A whole text is one match of `\[([a-zA-Z0-9]+)\]`: `[`, one or more ASCII letters or digits, `]`. This definition is independent of the scanner, and the renderer lemmas are stated against it |
| LinkRender.NoLink | wiki.go:36 | No substring of the text matches the link pattern |
| LinkRender.LinkTokenUnique | wiki.go:36 | Two matches that start at the same position are the same match, because a name cannot hold `]` |
| LinkRender.TokenNoLonger | wiki.go:36 | A match cannot be extended further to the right and still be a match |
| LinkRender.Anchor | wiki.go:41-42 | The anchor for a name is 21 characters longer than twice the name, starts with `<` and ends with `>` |
| LinkRender.AnchorNoBracket | wiki.go:42 | The anchor of a link name contains no `[`, so it cannot start a further link |
| LinkRender.NameLen | wiki.go:36 | The greedy run of letters and digits at the head is no longer than the text |
| LinkRender.NameLenSpec | wiki.go:36 | That run is all letters and digits, and the character after it (if any) is not one: `+` is greedy |
| LinkRender.MatchLen | wiki.go:36 | A match at the head is at least `[x]` long and lies within the text |
| LinkRender.MatchLenSound | wiki.go:36 | What the head matcher finds is a link token: `[`, one or more letters or digits, `]` |
| LinkRender.MatchLenComplete | wiki.go:36 | Every link token at the head is found, with its exact length (with MatchLenSound: found iff token) |
| LinkRender.LinkTokenOfName | wiki.go:36 | `[n]` is a link token if and only if `n` is a non-empty string of ASCII letters and digits |
| LinkRender.Render | wiki.go:40-43 | Rendering never shortens the body |
| LinkRender.RenderNoLink | wiki.go:40-43 | A body with no link token renders as itself |
| LinkRender.RenderGrows | wiki.go:40-43 | A body holding a link token renders strictly longer |
| LinkRender.RenderUnchangedIff | wiki.go:40-43 | The rendered body equals the body if and only if the body holds no link token |
| LinkRender.RenderAtToken | wiki.go:40-42 | At a token the scan emits the anchor of the inner name and resumes right after the token |
| LinkRender.RenderLeftmost | wiki.go:40-42 | Leftmost-first: when the first token of the body is `s[i..i+n]`, the text before it is copied, the token becomes the anchor of `s[i+1..i+n-1]`, and the rest is rendered on its own |
| LinkRender.RenderAppend | wiki.go:40-43 | Rendering distributes over a concatenation that no link token crosses |
| LinkRender.SafeBoundaryNoCrossing | wiki.go:36 | No token crosses a boundary where one side is empty or the characters on either side cannot continue a token |
| LinkRender.NoLinkConcat | wiki.go:36 | Two token-free texts that no token crosses concatenate to a token-free text |
| LinkRender.MatchLenPrefix | wiki.go:36 | When no token crosses the end of `a`, the match at the head of `a + b` is the match at the head of `a` |
| LinkRender.RenderToken | wiki.go:40-42 | A body that is exactly `[name]` renders as exactly the anchor of `name` |
| LinkRender.RenderTextLink | wiki.go:40-42 | Bracket-free text, then `[name]`, then a rest: the text is copied, the link replaced, the rest rendered separately |
| LinkRender.MalformedUntouched | wiki.go:36-43 | Brackets around text that is empty or holds a non-alphanumeric character (and no bracket) stay verbatim |
| LinkRender.HeadTokenMatches | wiki.go:40-42 | A token formed by a copied character and the rendered rest after it was already a token of the source at that position |
| LinkRender.RenderNoLinkOutput | wiki.go:40-43 | The rendered body holds no link token: inserted anchors are never rescanned |
| LinkRender.RenderIdempotent | wiki.go:40-43 | Rendering a rendered body changes nothing |
| RenderExamples.AnchorText | wiki.go:42 | The anchors for `Home` and `Foo2` are exactly `<a href="/view/Home">Home</a>` and `<a href="/view/Foo2">Foo2</a>` |
| RenderExamples.PlainText | wiki.go:40 | Text without `[` renders as itself |
| RenderExamples.TwoLinksIn | wiki.go:40-42 | Two links between bracket-free texts are each replaced, and the texts are kept in order |
| RenderExamples.TwoLinks | wiki.go:40-42 | `See [Home] and [Foo2].` renders with both links replaced |
| RenderExamples.EmptyBracketsThenLinkIn | wiki.go:36-43 | `[]`, then bracket-free text, then a link: only the link is replaced |
| RenderExamples.EmptyBracketsThenLink | wiki.go:36-43 | `[] [1a]` renders as `[] ` followed by the anchor for `1a` |
| RenderExamples.BracketedLinkIn | wiki.go:36-43 | A link inside a further pair of brackets: the outer brackets stay as text |
| RenderExamples.NestedBrackets | wiki.go:36-43 | `[[a]]` renders as `[`, the anchor for `a`, then `]` |
| RenderExamples.SpaceInBrackets | wiki.go:36 | `[a b]` is left verbatim |
| RenderExamples.HyphenInBrackets | wiki.go:36 | `[a-b]` is left verbatim |
| RenderExamples.EmptyBrackets | wiki.go:36 | `[]` is left verbatim |
| RenderExamples.EmptyBody | wiki.go:40 | The empty body renders as the empty text |
| PageStore.FileName | wiki.go:23-28 | The file name is the data path, then the title, then `.txt` (length, prefix, middle and suffix) |
| PageStore.FileNameInjective | wiki.go:23-28 | Within one data path, two titles name the same file if and only if they are equal |
| PageStore.Save | wiki.go:22-25 | A failed write returns its error. A successful write makes the title's file hold the body and leaves every other file unchanged |
| PageStore.Load | wiki.go:27-34 | Loading succeeds exactly when the title's file exists. The page then has the requested title and the whole file as body |
| PageStore.SaveLoad | wiki.go:22-34 | After a successful save, loading the same title returns the saved page |
| PageStore.SaveKeepsOthers | wiki.go:22-34 | Saving one title does not change what loading any other title returns |
| PageStore.SaveOverwrites | wiki.go:24 | A save replaces the file's contents: the second of two saves to one title wins |
| Handlers.PageDisplay | wiki.go:38-45 | The display keeps the title and carries the rendered body. That body holds no link token, and equals the stored body iff the stored body holds none |
| Handlers.Viewing | wiki.go:51-59 | A failed load (and only that) redirects to `/edit/` + title. Otherwise the view shows the loaded page's display |
| Handlers.Editing | wiki.go:61-68 | The edit form always gets a page with the requested title. Its body is empty when the load fails and is the stored body otherwise |
| Handlers.Saving | wiki.go:70-80 | A failed write aborts the request with status 500 and records the write's error. The model keeps the files unchanged in that case (see "## Left out"). A successful write redirects to `/view/` + title. The page then loads with the submitted body. No other file changes, and the only file that may be added is the page's own |
| Handlers.SaveThenViewAndEdit | wiki.go:51-80 | After a save, the view shows the rendered body and the edit form shows the raw body |
| Handlers.MissingFrontPage | wiki.go:51-68 | Without a FrontPage file, viewing it redirects to `/edit/FrontPage`, whose form has title FrontPage and an empty body |

## Left out

- The `/` route (wiki.go:47-49) is not modelled as a member. It is a fixed redirect to `/view/FrontPage`; `Handlers.MissingFrontPage` covers the page it leads to.
- Program start-up is outside the model:
  - the router, the template loading and the static file serving (wiki.go:82-97);
  - the templates' HTML output.
- `basePath` and `dataPath` (wiki.go:19-20) come from the command line in the source. Here the data path is a parameter of every store operation.
- The file system is reduced to a map from file names to contents. Three things follow from that:
  - Whether a write fails is an input to `PageStore.Save`; its reasons (missing directory, full disk, permissions) are not modelled, and neither is the file mode 0600.
  - A file that exists but cannot be read is modelled as a missing file. Both make the load fail, and both handlers treat them the same way.
  - Partial writes and concurrent requests are not modelled. In particular, `Handlers.Saving` leaves the files unchanged after a failed write. A real write opens the file with truncation first, so a write that fails part-way can leave the page's file empty or cut short.
- On a failed write, `saving` calls `AbortWithError` (wiki.go:76). This sends status 500 with an empty body and adds the error to the request's error list, which logging middleware may read. `Handlers.Abort` keeps the status and the recorded error. The model does not include the middleware, or what the client sees beyond the status.
- Go strings are byte strings; here they are `seq<char>`. The pattern only involves ASCII brackets, letters and digits, and no byte of a multi-byte UTF-8 sequence is one of these. So the matches are the same.
- The rendered body is passed to the template as `template.HTML`, so neither the body nor the link names are HTML-escaped. The model keeps the text as is and says nothing about HTML.
- Titles are not validated, as in the source: the model concatenates whatever title it is given into the file name.
- LinkRender.Anchor: its contract states only the anchor's length and its first and last characters. The full text follows from its definition, and `RenderExamples.AnchorText` spells it out for one name.
