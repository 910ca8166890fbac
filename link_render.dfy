/**
 * The inline-link renderer of the wiki: every `[name]` in a page body, where
 * `name` is one or more ASCII letters or digits, becomes an anchor to the page
 * `/view/name`. Matches are found leftmost-first and without overlap in a
 * single pass, and the inserted anchors are never scanned again.
 *
 * `Render` is a scanner over the body: at each position it either recognises a
 * link token (`MatchLen`) and emits its anchor, or copies one character.
 * `IsLinkToken` and `NoLink` are the declarative description of the pattern,
 * and the lemmas below tie the scanner to it.
 */
module LinkRender {
  import opened Wrappers
  import opened Strings

  /** A character of the class `[a-zA-Z0-9]`. */
  predicate IsAlnum(c: char) {
    ('a' <= c <= 'z') || ('A' <= c <= 'Z') || ('0' <= c <= '9')
  }

  /** Every character of `x` is a letter or a digit. */
  predicate AllAlnum(x: string) {
    forall k :: 0 <= k < |x| ==> IsAlnum(x[k])
  }

  /** A page name that may stand between brackets: one or more letters or digits. */
  predicate IsName(n: string) {
    |n| > 0 && forall k :: 0 <= k < |n| ==> IsAlnum(n[k])
  }

  /** The whole of `w` is one match of the pattern `\[([a-zA-Z0-9]+)\]`. */
  predicate IsLinkToken(w: string) {
    && |w| >= 3
    && w[0] == '['
    && w[|w| - 1] == ']'
    && forall k :: 0 < k < |w| - 1 ==> IsAlnum(w[k])
  }

  /**
   * A match of the link pattern is determined by where it starts: the name
   * cannot hold `]`, so the first `]` after the `[` closes the match.
   */
  lemma LinkTokenUnique(s: string, i: nat, j: nat, k: nat)
    requires i <= j <= |s| && i <= k <= |s|
    requires IsLinkToken(s[i..j]) && IsLinkToken(s[i..k])
    ensures j == k
  {
    if j < k {
      TokenNoLonger(s, i, j, k);
    } else if k < j {
      TokenNoLonger(s, i, k, j);
    }
  }

  /** A match ending at `j` cannot be extended: `s[j - 1]` is the closing `]`. */
  lemma TokenNoLonger(s: string, i: nat, j: nat, k: nat)
    requires i <= j < k <= |s| && IsLinkToken(s[i..j])
    ensures !IsLinkToken(s[i..k])
  {
    assert s[i..k][j - 1 - i] == s[i..j][j - 1 - i] == ']';
  }

  /** No substring of `s` matches the link pattern. */
  predicate NoLink(s: string) {
    forall i, j {:trigger IsLinkToken(s[i..j])} :: 0 <= i <= j <= |s| ==> !IsLinkToken(s[i..j])
  }

  /** The anchor that replaces the link token `[name]`. */
  function Anchor(name: string): (r: string)
    ensures |r| == 2 * |name| + 21
    ensures r[0] == '<' && r[|r| - 1] == '>'
  {
    "<a href=\"/view/" + name + "\">" + name + "</a>"
  }

  /** The anchor of a name holds no opening bracket, so no link token. */
  lemma AnchorNoBracket(name: string)
    requires IsName(name)
    ensures '[' !in Anchor(name)
  {
  }

  /** Length of the longest prefix of `s` made of letters and digits. */
  function NameLen(s: string): (n: nat)
    ensures n <= |s|
  {
    if |s| > 0 && IsAlnum(s[0]) then 1 + NameLen(s[1..]) else 0
  }

  /** `NameLen` stops at the first character that is not a letter or digit. */
  lemma {:induction false} NameLenSpec(s: string)
    ensures AllAlnum(s[..NameLen(s)])
    ensures NameLen(s) < |s| ==> !IsAlnum(s[NameLen(s)])
    decreases |s|
  {
    if |s| > 0 && IsAlnum(s[0]) {
      NameLenSpec(s[1..]);
      var n := NameLen(s[1..]);
      assert forall k :: 0 <= k < n ==> s[..n + 1][k + 1] == s[1..][..n][k];
    }
  }

  /** The length of the link token that starts `s`, if one does. */
  function MatchLen(s: string): (r: Option<nat>)
    ensures r.Some? ==> 3 <= r.value <= |s|
  {
    if |s| > 0 && s[0] == '[' then
      var n := NameLen(s[1..]);
      if n > 0 && n + 1 < |s| && s[n + 1] == ']' then Some(n + 2) else None
    else None
  }

  /** What `MatchLen` finds is a link token. */
  lemma MatchLenSound(s: string)
    ensures MatchLen(s).Some? ==> IsLinkToken(s[..MatchLen(s).value])
  {
    if MatchLen(s).Some? {
      var n := NameLen(s[1..]);
      NameLenSpec(s[1..]);
      assert forall k :: 0 <= k < n ==> s[..n + 2][k + 1] == s[1..][..n][k];
    }
  }

  /** The body with every link token replaced by its anchor. */
  function Render(s: string): (r: string)
    ensures |r| >= |s|
    decreases |s|
  {
    if |s| == 0 then []
    else match MatchLen(s)
      case Some(n) => Anchor(s[1..n - 1]) + Render(s[n..])
      case None => [s[0]] + Render(s[1..])
  }

  /** A link token is exactly a name between brackets. */
  lemma LinkTokenOfName(name: string)
    ensures IsLinkToken("[" + name + "]") <==> IsName(name)
  {
    var w := "[" + name + "]";
    assert forall k :: 0 <= k < |name| ==> w[k + 1] == name[k];
  }

  /** `MatchLen` finds every link token that starts `s`: with `MatchLenSound`,
      `MatchLen(s) == Some(n)` exactly when `s[..n]` is a token. */
  lemma MatchLenComplete(s: string, n: nat)
    requires n <= |s| && IsLinkToken(s[..n])
    ensures MatchLen(s) == Some(n)
  {
    var m := NameLen(s[1..]);
    NameLenSpec(s[1..]);
    assert forall k :: 0 <= k < m ==> s[1..][..m][k] == s[1..][k];
    assert forall k :: 0 <= k < n - 2 ==> s[1..][k] == s[..n][k + 1];
    assert m >= n - 2;
    assert s[1..][n - 2] == s[..n][n - 1];
    assert m <= n - 2;
  }

  /** A text without an opening bracket holds no link token. */
  lemma NoBracketNoLink(s: string)
    requires '[' !in s
    ensures NoLink(s)
  {
    forall i, j | 0 <= i <= j <= |s|
      ensures !IsLinkToken(s[i..j])
    {
      if i < j {
        assert s[i..j][0] == s[i];
        assert s[i] in s;
      }
    }
  }

  /** Every slice of a text without link tokens is without link tokens. */
  lemma NoLinkSlice(s: string, a: nat, b: nat)
    requires NoLink(s) && a <= b <= |s|
    ensures NoLink(s[a..b])
  {
    forall i, j | 0 <= i <= j <= b - a
      ensures !IsLinkToken(s[a..b][i..j])
    {
      SliceOfSlice(s, a, b, i, j);
    }
  }

  /** The token `MatchLen` finds is the substring of `s` from position 0. */
  lemma TokenAtHead(s: string)
    ensures MatchLen(s).Some? ==> IsLinkToken(s[0..MatchLen(s).value])
  {
    MatchLenSound(s);
    if MatchLen(s).Some? {
      var n := MatchLen(s).value;
      assert s[0..n] == s[..n];
    }
  }

  /** No link token starts a text that holds none. */
  lemma NoLinkNoMatch(s: string)
    requires NoLink(s)
    ensures MatchLen(s).None?
  {
    TokenAtHead(s);
  }

  /** Rendering is the identity on a text that holds no link token. */
  lemma {:induction false} RenderNoLink(s: string)
    requires NoLink(s)
    ensures Render(s) == s
    decreases |s|
  {
    if s != [] {
      NoLinkNoMatch(s);
      NoLinkSlice(s, 1, |s|);
      assert s[1..|s|] == s[1..];
      RenderNoLink(s[1..]);
      assert s == [s[0]] + s[1..];
    }
  }

  /** Rendering strictly lengthens a text that holds a link token. */
  lemma {:induction false} RenderGrows(s: string, i: nat, j: nat)
    requires i <= j <= |s| && IsLinkToken(s[i..j])
    ensures |Render(s)| > |s|
    decreases |s|
  {
    match MatchLen(s)
    case Some(n) =>
      RenderMatched(s, n);
    case None =>
      RenderCopiesHead(s);
      if i == 0 {
        assert s[..j] == s[i..j];
        MatchLenComplete(s, j);
      } else {
        SliceOfTail(s, 1, i - 1, j - 1);
        RenderGrows(s[1..], i - 1, j - 1);
      }
  }

  /** Rendering leaves the body unchanged if and only if it holds no link token. */
  lemma RenderUnchangedIff(s: string)
    ensures Render(s) == s <==> NoLink(s)
  {
    if NoLink(s) {
      RenderNoLink(s);
    } else {
      var i, j :| 0 <= i <= j <= |s| && IsLinkToken(s[i..j]);
      RenderGrows(s, i, j);
    }
  }

  /** No link token of `s` starts before position `i`. */
  predicate NoTokenBefore(s: string, i: nat) {
    forall k, m {:trigger IsLinkToken(s[k..m])} :: 0 <= k < i && k <= m <= |s| ==> !IsLinkToken(s[k..m])
  }

  lemma NoTokenBeforeShift(s: string, i: nat)
    requires 0 < i && s != [] && NoTokenBefore(s, i)
    ensures NoTokenBefore(s[1..], i - 1) && MatchLen(s).None?
  {
    var t := s[1..];
    forall k, m | 0 <= k < i - 1 && k <= m <= |t|
      ensures !IsLinkToken(t[k..m])
    {
      SliceOfTail(s, 1, k, m);
    }
    TokenAtHead(s);
  }

  /** The scan at a link token emits its anchor and resumes after the token. */
  lemma RenderAtToken(s: string, n: nat)
    requires n <= |s| && IsLinkToken(s[..n])
    ensures Render(s) == Anchor(s[1..n - 1]) + Render(s[n..])
  {
    MatchLenComplete(s, n);
    RenderMatched(s, n);
  }

  lemma RenderMatched(s: string, n: nat)
    requires s != [] && MatchLen(s) == Some(n)
    ensures Render(s) == Anchor(s[1..n - 1]) + Render(s[n..])
  {
  }

  /** The text between the brackets of a link token is a name. */
  lemma TokenName(s: string, n: nat)
    requires 3 <= n <= |s| && IsLinkToken(s[..n])
    ensures IsName(s[1..n - 1])
  {
    var name := s[1..n - 1];
    assert forall k :: 0 <= k < |name| ==> name[k] == s[..n][k + 1];
  }

  /** The scan where no link token starts copies one character. */
  lemma RenderCopiesHead(s: string)
    requires s != [] && MatchLen(s).None?
    ensures Render(s) == [s[0]] + Render(s[1..])
  {
  }

  /**
   * `RenderLeftmost`, with the suffix `u` of `s` that starts at the token and
   * the token's name and what follows it given as slices of `u`.
   */
  lemma {:induction false} RenderLeftmostFrom(s: string, i: nat, u: string, n: nat, name: string, rest: string)
    requires i <= |s| && u == s[i..]
    requires n <= |u| && IsLinkToken(u[..n]) && name == u[1..n - 1] && rest == u[n..]
    requires NoTokenBefore(s, i)
    ensures Render(s) == s[..i] + Anchor(name) + Render(rest)
    decreases i
  {
    if i == 0 {
      assert u == s;
      RenderAtToken(s, n);
      NilAppend(s[..0], Anchor(name), Render(rest));
    } else {
      NoTokenBeforeShift(s, i);
      TailOfTail(s, i);
      RenderLeftmostFrom(s[1..], i - 1, u, n, name, rest);
      RenderCopiesHead(s);
      ConsPrefix(s, i);
      ConsAssoc(s[0], s[1..][..i - 1], s[..i], Anchor(name), Render(rest));
    }
  }

  /**
   * One step of the leftmost-first scan: when the first link token of `s`
   * occupies `s[i..i + n]`, the text before it is copied unchanged, the
   * token becomes the anchor of its inner name, and the scan resumes right
   * after the token.
   */
  lemma RenderLeftmost(s: string, i: nat, n: nat)
    requires i + n <= |s| && IsLinkToken(s[i..i + n])
    requires NoTokenBefore(s, i)
    ensures Render(s) == s[..i] + Anchor(s[i + 1..i + n - 1]) + Render(s[i + n..])
  {
    SliceOfTail(s, i, 0, n);
    assert s[i..][..n] == s[i..][0..n];
    SliceOfTail(s, i, 1, n - 1);
    assert s[i..][n..] == s[i + n..];
    RenderLeftmostFrom(s, i, s[i..], n, s[i + 1..i + n - 1], s[i + n..]);
  }

  /** No link token of `a + b` starts in `a` and ends in `b`. */
  predicate NoCrossing(a: string, b: string) {
    forall i, j {:trigger IsLinkToken((a + b)[i..j])} :: 0 <= i < |a| < j <= |a| + |b| ==> !IsLinkToken((a + b)[i..j])
  }

  /**
   * A boundary no link token can cross: one side is empty, `a` ends with a
   * character that can be neither the opening bracket nor part of a name, or
   * `b` starts with one that can be neither part of a name nor the closing
   * bracket.
   */
  predicate SafeBoundary(a: string, b: string) {
    || a == []
    || b == []
    || (!IsAlnum(a[|a| - 1]) && a[|a| - 1] != '[')
    || (!IsAlnum(b[0]) && b[0] != ']')
  }

  lemma SafeBoundaryNoCrossing(a: string, b: string)
    requires SafeBoundary(a, b)
    ensures NoCrossing(a, b)
  {
    forall i, j | 0 <= i < |a| < j <= |a| + |b|
      ensures !IsLinkToken((a + b)[i..j])
    {
      var w := (a + b)[i..j];
      assert w[|a| - 1 - i] == a[|a| - 1];
      assert w[|a| - i] == b[0];
    }
  }

  lemma NoCrossingDrop(a: string, b: string, k: nat)
    requires k <= |a| && NoCrossing(a, b)
    ensures NoCrossing(a[k..], b)
  {
    forall i, j | 0 <= i < |a| - k < j <= |a| - k + |b|
      ensures !IsLinkToken((a[k..] + b)[i..j])
    {
      assert a[k..] + b == (a + b)[k..];
      SliceOfTail(a + b, k, i, j);
    }
  }

  /** A text made of two token-free parts that no token crosses is token-free. */
  lemma NoLinkConcat(a: string, b: string)
    requires NoLink(a) && NoLink(b) && NoCrossing(a, b)
    ensures NoLink(a + b)
  {
    forall i, j | 0 <= i <= j <= |a + b|
      ensures !IsLinkToken((a + b)[i..j])
    {
      SliceOfAppend(a, b, i, j);
    }
  }

  /** The token at the head of `a + b` is the token at the head of `a`, when none crosses. */
  lemma MatchLenPrefix(a: string, b: string)
    requires a != [] && NoCrossing(a, b)
    ensures MatchLen(a + b) == MatchLen(a)
  {
    var s := a + b;
    MatchLenSound(a);
    if MatchLen(a).Some? {
      var n := MatchLen(a).value;
      SliceOfAppend(a, b, 0, n);
      MatchLenComplete(s, n);
    } else if MatchLen(s).Some? {
      var m := MatchLen(s).value;
      TokenAtHead(s);
      if m <= |a| {
        SliceOfAppend(a, b, 0, m);
        MatchLenComplete(a, m);
      }
    }
  }

  /**
   * Rendering distributes over a split that no link token crosses: the text
   * between and around the matches is copied unchanged and in order.
   */
  lemma {:induction false} RenderAppend(a: string, b: string)
    requires NoCrossing(a, b)
    ensures Render(a + b) == Render(a) + Render(b)
    decreases |a|
  {
    if a == [] {
      RenderAppendEmpty(a, b);
    } else {
      MatchLenPrefix(a, b);
      match MatchLen(a)
      case Some(n) =>
        NoCrossingDrop(a, b, n);
        RenderAppend(a[n..], b);
        RenderAppendMatched(a, b, n);
      case None =>
        NoCrossingDrop(a, b, 1);
        RenderAppend(a[1..], b);
        RenderAppendCopied(a, b);
    }
  }

  lemma RenderAppendEmpty(a: string, b: string)
    requires a == []
    ensures Render(a + b) == Render(a) + Render(b)
  {
    assert a + b == b;
    assert Render(a) == [];
  }

  /** `RenderAppend` at a token that starts `a`, given the rest distributes. */
  lemma RenderAppendMatched(a: string, b: string, n: nat)
    requires a != [] && MatchLen(a) == Some(n) && MatchLen(a + b) == Some(n)
    requires Render(a[n..] + b) == Render(a[n..]) + Render(b)
    ensures Render(a + b) == Render(a) + Render(b)
  {
    RenderMatched(a, n);
    RenderMatchedAppend(a, b, n);
    Glue(Render(a + b), Render(a), Render(b), Anchor(a[1..n - 1]), Render(a[n..]), Render(a[n..] + b));
  }

  lemma RenderMatchedAppend(a: string, b: string, n: nat)
    requires a != [] && MatchLen(a) == Some(n) && MatchLen(a + b) == Some(n)
    ensures Render(a + b) == Anchor(a[1..n - 1]) + Render(a[n..] + b)
  {
    RenderMatched(a + b, n);
    AppendSlices(a, b, n);
  }

  lemma AppendSlices(a: string, b: string, n: nat)
    requires 2 <= n <= |a|
    ensures (a + b)[1..n - 1] == a[1..n - 1] && (a + b)[n..] == a[n..] + b
  {
    SliceOfAppend(a, b, 1, n - 1);
  }

  /** `RenderAppend` where `a` starts with a copied character, given the rest distributes. */
  lemma RenderAppendCopied(a: string, b: string)
    requires a != [] && MatchLen(a).None? && MatchLen(a + b).None?
    requires Render(a[1..] + b) == Render(a[1..]) + Render(b)
    ensures Render(a + b) == Render(a) + Render(b)
  {
    RenderCopiesHead(a);
    RenderCopiedAppend(a, b);
    Glue(Render(a + b), Render(a), Render(b), [a[0]], Render(a[1..]), Render(a[1..] + b));
  }

  lemma RenderCopiedAppend(a: string, b: string)
    requires a != [] && MatchLen(a + b).None?
    ensures Render(a + b) == [a[0]] + Render(a[1..] + b)
  {
    RenderCopiesHead(a + b);
    assert (a + b)[1..] == a[1..] + b;
    assert (a + b)[0] == a[0];
  }

  /** A name between brackets renders as exactly its anchor. */
  lemma RenderToken(name: string)
    requires IsName(name)
    ensures Render("[" + name + "]") == Anchor(name)
  {
    var w := "[" + name + "]";
    LinkTokenOfName(name);
    assert w[..|w|] == w;
    MatchLenComplete(w, |w|);
    assert w[1..|w| - 1] == name;
    assert w[|w|..] == [];
  }

  /**
   * A link between plain text and the rest of the body: the text before it
   * is copied, the link becomes exactly its anchor, and the rest is rendered
   * on its own.
   */
  lemma RenderTextLink(t: string, name: string, rest: string)
    requires '[' !in t && IsName(name)
    ensures Render(t + "[" + name + "]" + rest) == t + Anchor(name) + Render(rest)
  {
    var w := "[" + name + "]";
    assert t + "[" + name + "]" + rest == (t + w) + rest;
    assert (t + w)[|t + w| - 1] == ']';
    SafeBoundaryNoCrossing(t + w, rest);
    RenderAppend(t + w, rest);
    if t != [] {
      assert w[0] == '[';
    }
    SafeBoundaryNoCrossing(t, w);
    RenderAppend(t, w);
    NoBracketNoLink(t);
    RenderNoLink(t);
    RenderToken(name);
  }

  /**
   * Malformed brackets are left verbatim: an opening bracket, text that is
   * not a name (empty, or holding some other character) and no other
   * bracket, then a closing bracket, render as themselves.
   */
  lemma MalformedUntouched(w: string)
    requires !IsName(w) && '[' !in w && ']' !in w
    ensures Render("[" + w + "]") == "[" + w + "]"
  {
    var s := "[" + w + "]";
    forall i, j | 0 <= i <= j <= |s|
      ensures !IsLinkToken(s[i..j])
    {
      if i < j {
        assert s[i..j][0] == s[i];
        assert s[i..j][j - i - 1] == s[j - 1];
      }
      if 0 < i < |s| - 1 {
        assert s[i] == w[i - 1];
      }
      if 0 < j - 1 < |s| - 1 {
        assert s[j - 1] == w[j - 2];
      }
      if i == 0 && j == |s| {
        assert s[i..j] == s;
        LinkTokenOfName(w);
      }
    }
    RenderNoLink(s);
  }

  /** `x` starts with `k` characters that are letters or digits, except that the last may be `]`. */
  predicate AlnumRun(x: string, k: nat) {
    && 0 < k <= |x|
    && (forall i :: 0 <= i < k - 1 ==> IsAlnum(x[i]))
    && (IsAlnum(x[k - 1]) || x[k - 1] == ']')
  }

  lemma AlnumRunCons(c: char, r: string, k: nat)
    requires AlnumRun([c] + r, k)
    ensures c != '<'
    ensures k > 1 ==> AlnumRun(r, k - 1)
  {
    assert ([c] + r)[0] == c;
    if k > 1 {
      assert forall i :: 0 <= i < k - 1 ==> r[i] == ([c] + r)[i + 1];
    }
  }

  /** A link token at the head of `[c] + r` leaves an alphanumeric run in `r`. */
  lemma TokenRun(c: char, r: string, j: nat)
    requires 1 < j <= 1 + |r| && IsLinkToken(([c] + r)[0..j])
    ensures AlnumRun(r, j - 1) && IsLinkToken([c] + r[..j - 1])
  {
    var w := ([c] + r)[0..j];
    assert w == [c] + r[..j - 1];
    assert forall i :: 0 <= i < j - 1 ==> r[i] == w[i + 1];
  }

  /** The first character of a rendered text that is not the start of an anchor. */
  lemma RenderFirst(t: string)
    requires |Render(t)| > 0 && Render(t)[0] != '<'
    ensures t != [] && MatchLen(t).None?
    ensures Render(t) == [t[0]] + Render(t[1..])
  {
  }

  /**
   * A rendered text starts with `k` letters or digits, the last possibly `]`,
   * only where its source starts with the same `k` characters.
   */
  lemma {:induction false} RenderHead(t: string, k: nat)
    requires AlnumRun(Render(t), k)
    ensures k <= |t| && t[..k] == Render(t)[..k]
    decreases |t|
  {
    var r := Render(t[1..]);
    assert Render(t)[0] != '<';
    RenderFirst(t);
    AlnumRunCons(t[0], r, k);
    if k > 1 {
      RenderHead(t[1..], k - 1);
    } else {
      assert t[1..][..k - 1] == r[..k - 1];
    }
    ConsPrefix(t, k);
    ConsTake(t[0], r, k);
  }

  /** A bracket copied verbatim cannot open a token with the rendered text after it. */
  lemma HeadNoCrossing(s: string)
    requires s != [] && MatchLen(s).None?
    ensures NoCrossing([s[0]], Render(s[1..]))
  {
    var r := Render(s[1..]);
    forall i, j | 0 <= i < 1 < j <= 1 + |r|
      ensures !IsLinkToken(([s[0]] + r)[i..j])
    {
      HeadNoToken(s, j);
    }
  }

  lemma HeadNoToken(s: string, j: nat)
    requires s != [] && MatchLen(s).None? && 1 < j <= 1 + |Render(s[1..])|
    ensures !IsLinkToken(([s[0]] + Render(s[1..]))[0..j])
  {
    if IsLinkToken(([s[0]] + Render(s[1..]))[0..j]) {
      HeadTokenMatches(s, j);
    }
  }

  /** A token that starts with a copied character and runs into the rendered
      rest was already a token of the source, found by `MatchLen`. */
  lemma HeadTokenMatches(s: string, j: nat)
    requires s != [] && 1 < j <= 1 + |Render(s[1..])|
    requires IsLinkToken(([s[0]] + Render(s[1..]))[0..j])
    ensures MatchLen(s) == Some(j)
  {
    HeadTokenSource(s, j);
    MatchLenComplete(s, j);
  }

  lemma HeadTokenSource(s: string, j: nat)
    requires s != [] && 1 < j <= 1 + |Render(s[1..])|
    requires IsLinkToken(([s[0]] + Render(s[1..]))[0..j])
    ensures j <= |s| && IsLinkToken(s[..j])
  {
    var r := Render(s[1..]);
    TokenRun(s[0], r, j);
    RenderHead(s[1..], j - 1);
    TokenFromRun(s, r, j);
  }

  lemma TokenFromRun(s: string, r: string, j: nat)
    requires 1 < j <= |s| && j - 1 <= |r|
    requires s[1..][..j - 1] == r[..j - 1] && IsLinkToken([s[0]] + r[..j - 1])
    ensures IsLinkToken(s[..j])
  {
    ConsPrefix(s, j);
  }

  /** The rendered body holds no link token: the anchors are never rescanned. */
  lemma {:induction false} RenderNoLinkOutput(s: string)
    ensures NoLink(Render(s))
    decreases |s|
  {
    if s != [] {
      match MatchLen(s)
      case Some(n) =>
        MatchLenSound(s);
        TokenName(s, n);
        RenderMatched(s, n);
        var a := Anchor(s[1..n - 1]);
        AnchorNoBracket(s[1..n - 1]);
        NoBracketNoLink(a);
        RenderNoLinkOutput(s[n..]);
        SafeBoundaryNoCrossing(a, Render(s[n..]));
        NoLinkConcat(a, Render(s[n..]));
      case None =>
        RenderCopiesHead(s);
        RenderNoLinkOutput(s[1..]);
        HeadNoCrossing(s);
        NoLinkConcat([s[0]], Render(s[1..]));
    }
  }

  /** Rendering twice is rendering once: there is no recursive link expansion. */
  lemma RenderIdempotent(s: string)
    ensures Render(Render(s)) == Render(s)
  {
    RenderNoLinkOutput(s);
    RenderNoLink(Render(s));
  }
}
