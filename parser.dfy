/** The extraction stage of the ingestion pipeline: fetch the PDF of one
    DocumentId, join its page texts, resolve a display filename, and clean the
    text before it goes to the language model. The HTTP requests and PyMuPDF are
    oracles: a PortalResponse holds what they return for one DocumentId. */
module Parser {
  import opened Strings

  newtype byte = x: int | 0 <= x < 256

  /** PyMuPDF's document metadata dictionary. */
  type Metadata = map<string, string>

  /** What the portal and PyMuPDF yield for one DocumentId. */
  datatype PortalResponse = PortalResponse(
    body: Option<seq<byte>>,            // GET: None on a non-200 status or a request error
    pages: Option<seq<string>>,         // get_text() of every page; None when PyMuPDF raises
    metadata: Option<Metadata>,         // doc.metadata; None when PyMuPDF raises
    contentDisposition: Option<string>) // HEAD header ("" when absent); None when the request raises

  type Portal = string -> PortalResponse

  datatype ParsedDocument = ParsedDocument(
    documentId: string, filename: string, text: string,
    textLength: nat, metadata: Option<Metadata>, wordCount: nat)

  datatype LlmDocument = LlmDocument(
    documentId: string, filename: string, text: string, metadata: Option<Metadata>)

  const PageSeparator := "\n\n"
  const TruncationMarker := "\n\n[Document truncated...]"

  // ---------------------------------------------------------------- page text

  /** The text PyMuPDF yields for a document: its pages joined by a blank line. */
  function ExtractedText(pages: Option<seq<string>>): Option<string>
  {
    match pages
    case None => None
    case Some(ps) => Some(Join(ps, PageSeparator))
  }

  /** Collects the page texts one by one and joins them. */
  method ExtractTextFromPdfBytes(pages: Option<seq<string>>) returns (text: Option<string>)
    ensures text.None? <==> pages.None?
    ensures text.Some? ==> text.value == Join(pages.value, PageSeparator)
  {
    if pages.None? {
      return None;
    }
    var doc := pages.value;
    var fullText: seq<string> := [];
    var pageNum := 0;
    while pageNum < |doc|
      invariant 0 <= pageNum <= |doc|
      invariant fullText == doc[..pageNum]
    {
      fullText := fullText + [doc[pageNum]];
      pageNum := pageNum + 1;
    }
    assert fullText == doc;
    return Some(Join(fullText, PageSeparator));
  }

  /** Page k of the document sits in the extracted text at its offset, and
      consecutive pages are separated by a blank line. */
  lemma {:induction false} ExtractedTextKeepsPageOrder(pages: seq<string>, k: nat)
    requires k < |pages|
    ensures var text := ExtractedText(Some(pages)).value;
      var at := JoinOffset(pages, PageSeparator, k);
      && at + |pages[k]| <= |text| && text[at..at + |pages[k]|] == pages[k]
      && (k + 1 < |pages| ==>
            JoinOffset(pages, PageSeparator, k + 1) <= |text| &&
            text[at + |pages[k]|..JoinOffset(pages, PageSeparator, k + 1)] == "\n\n")
  {
    JoinHoldsPart(pages, PageSeparator, k);
    if k + 1 < |pages| {
      JoinSeparates(pages, PageSeparator, k);
    }
  }

  // ---------------------------------------------------------------- filename

  predicate NoQuote(s: string) {
    forall i :: 0 <= i < |s| ==> s[i] != '"'
  }

  /** Length of the run of non-quote characters that starts s. */
  function NonQuoteLen(s: string): (n: nat)
    ensures n <= |s| && NoQuote(s[..n])
    ensures n < |s| ==> s[n] == '"'
  {
    if s != [] && s[0] != '"' then 1 + NonQuoteLen(s[1..]) else 0
  }

  /** The pattern `filename="?([^"]+)"?` tried at the start of s, giving its group.
      With an opening quote the group must be non-empty; otherwise the regex
      backtracks to no opening quote, where the group cannot start with a quote. */
  function FilenameMatchAt(s: string): (g: Option<string>)
    ensures g.Some? ==> "filename=" <= s && g.value != [] && NoQuote(g.value)
    ensures g.Some? <==> "filename=" <= s && |s| > 9 && (s[9] != '"' || (|s| > 10 && s[10] != '"'))
    ensures g.Some? ==>
      && |s| > 9
      && var start := if s[9] == '"' then 10 else 9;
         OccursAt(s, start, g.value) && (start + |g.value| == |s| || s[start + |g.value|] == '"')
  {
    if !("filename=" <= s) then None
    else
      var t := s[9..];
      if |t| >= 2 && t[0] == '"' && t[1] != '"' then
        var u := t[1..];
        var n := NonQuoteLen(u);
        assert s[10..10 + n] == u[..n];
        Some(u[..n])
      else if t != [] && t[0] != '"' then
        var n := NonQuoteLen(t);
        assert s[9..9 + n] == t[..n];
        Some(t[..n])
      else None
  }

  /** re.search: the group of the leftmost position where the pattern matches
      (SearchFilenameLeftmost). */
  function SearchFilename(s: string): (g: Option<string>)
    ensures g.Some? ==> g.value != [] && NoQuote(g.value)
    decreases |s|
  {
    match FilenameMatchAt(s)
    case Some(g) => Some(g)
    case None => if s == [] then None else SearchFilename(s[1..])
  }

  /** str.replace('"', '') */
  function RemoveQuotes(s: string): (r: string)
    ensures NoQuote(r)
  {
    if s == [] then []
    else (if s[0] == '"' then [] else [s[0]]) + RemoveQuotes(s[1..])
  }

  lemma {:induction false} RemoveQuotesOfNoQuote(s: string)
    requires NoQuote(s)
    ensures RemoveQuotes(s) == s
  {
    if s != [] {
      RemoveQuotesOfNoQuote(s[1..]);
    }
  }

  lemma StripKeepsNoQuote(s: string)
    requires NoQuote(s)
    ensures NoQuote(Strip(s))
  {
    var r := Strip(s);
    StripDropsOnlySpace(s);
    var i :| OccursAt(s, i, r);
    forall j | 0 <= j < |r| ensures r[j] != '"' {
      assert r[j] == s[i + j];
    }
  }

  /** The name the code reads from a Content-Disposition value: the stripped
      group of the leftmost match, or None when the pattern matches nowhere. */
  function HeaderFilename(header: string): (name: Option<string>)
    ensures name.Some? ==> Trimmed(name.value) && NoQuote(name.value)
    ensures !Contains(header, "filename=") ==> name.None?
    ensures name.Some? <==> SearchFilename(header).Some?
    ensures name.Some? ==> name.value == Strip(SearchFilename(header).value)
  {
    if Contains(header, "filename=") then
      match SearchFilename(header)
      case Some(g) =>
        StripKeepsNoQuote(g);
        RemoveQuotesOfNoQuote(Strip(g));
        Some(RemoveQuotes(Strip(g)))
      case None => None
    else
      SearchFilenameFindsOccurrence(header);
      None
  }

  function DefaultFilename(documentId: string): string {
    "doc_" + documentId + ".pdf"
  }

  /** getFilenameFromResponse: the header's name, else doc_<id>.pdf, also when
      the HEAD request raised (header None). */
  function GetFilenameFromResponse(documentId: string, header: Option<string>): (name: string)
    ensures header.None? || !Contains(header.value, "filename=") ==> name == DefaultFilename(documentId)
    ensures header.Some? && SearchFilename(header.value).Some? ==> name == Strip(SearchFilename(header.value).value)
    ensures header.Some? && SearchFilename(header.value).None? ==> name == DefaultFilename(documentId)
    ensures name != DefaultFilename(documentId) ==> Trimmed(name) && NoQuote(name)
  {
    match header
    case None => DefaultFilename(documentId)
    case Some(h) =>
      match HeaderFilename(h)
      case Some(n) => n
      case None => DefaultFilename(documentId)
  }

  /** Whenever the pattern matches somewhere, "filename=" occurs in the header,
      so the code's `in` test never hides a match. */
  lemma {:induction false} SearchFilenameFindsOccurrence(s: string)
    ensures SearchFilename(s).Some? ==> Contains(s, "filename=")
    decreases |s|
  {
    if s != [] && FilenameMatchAt(s).None? {
      SearchFilenameFindsOccurrence(s[1..]);
    }
  }

  /** re.search reports the match at the leftmost position where the pattern
      matches, and None exactly when it matches at no position. */
  lemma {:induction false} SearchFilenameLeftmost(s: string)
    ensures SearchFilename(s).None? <==> forall i :: 0 <= i <= |s| ==> FilenameMatchAt(s[i..]).None?
    ensures SearchFilename(s).Some? ==>
      exists i :: 0 <= i <= |s| && FilenameMatchAt(s[i..]) == SearchFilename(s)
        && forall j :: 0 <= j < i ==> FilenameMatchAt(s[j..]).None?
    decreases |s|
  {
    assert s[0..] == s;
    if FilenameMatchAt(s).None? && s != [] {
      var t := s[1..];
      SearchFilenameLeftmost(t);
      forall i | 1 <= i <= |s| ensures t[i - 1..] == s[i..] { }
      if SearchFilename(s).Some? {
        var i :| 0 <= i <= |t| && FilenameMatchAt(t[i..]) == SearchFilename(t)
          && forall j :: 0 <= j < i ==> FilenameMatchAt(t[j..]).None?;
        assert t[i..] == s[i + 1..];
        forall j | 0 <= j < i + 1 ensures FilenameMatchAt(s[j..]).None? {
          if j > 0 {
            assert t[j - 1..] == s[j..];
          }
        }
      }
    }
  }

  /** A prefix without the letter f cannot hold the start of a match. */
  lemma {:induction false} SearchFilenameSkips(p: string, rest: string)
    requires forall i :: 0 <= i < |p| ==> p[i] != 'f'
    ensures SearchFilename(p + rest) == SearchFilename(rest)
    decreases |p|
  {
    if p != [] {
      assert !("filename=" <= p + rest) by {
        assert (p + rest)[0] == p[0];
        assert "filename="[0] == 'f';
      }
      assert (p + rest)[1..] == p[1..] + rest;
      SearchFilenameSkips(p[1..], rest);
    } else {
      assert p + rest == rest;
    }
  }

  lemma {:induction false} NonQuoteLenOfName(name: string, rest: string)
    requires NoQuote(name)
    ensures NonQuoteLen(name + "\"" + rest) == |name|
    decreases |name|
  {
    if name != [] {
      assert (name + "\"" + rest)[1..] == name[1..] + "\"" + rest;
      NonQuoteLenOfName(name[1..], rest);
    }
  }

  /** At `filename="<name>"` the pattern's group is the name. */
  lemma FilenameMatchOfQuoted(name: string)
    requires name != [] && NoQuote(name)
    ensures FilenameMatchAt("filename=\"" + name + "\"") == Some(name)
  {
    var rest := "filename=\"" + name + "\"";
    assert rest[..9] == "filename=";
    var t := rest[9..];
    assert t == "\"" + name + "\"";
    var u := t[1..];
    assert u == name + "\"" + [];
    NonQuoteLenOfName(name, []);
    assert u[..|name|] == name;
  }

  /** Round trip: a trimmed, quote-free name written as `attachment; filename="<name>"`
      is read back unchanged. */
  lemma {:induction false} QuotedFilenameRoundTrip(name: string)
    requires name != [] && NoQuote(name) && Trimmed(name)
    ensures HeaderFilename("attachment; filename=\"" + name + "\"") == Some(name)
  {
    var prefix := "attachment; ";
    var rest := "filename=\"" + name + "\"";
    var header := "attachment; filename=\"" + name + "\"";
    assert header == prefix + rest;
    FilenameMatchOfQuoted(name);
    assert SearchFilename(rest) == Some(name);
    SearchFilenameSkips(prefix, rest);
    SearchFilenameFindsOccurrence(header);
    StripOfTrimmed(name);
    RemoveQuotesOfNoQuote(name);
  }

  /** The response of an attachment header names the file it quotes, whatever
      the document id. */
  lemma AttachmentFilename(documentId: string, name: string)
    requires name != [] && NoQuote(name) && Trimmed(name)
    ensures GetFilenameFromResponse(documentId, Some("attachment; filename=\"" + name + "\"")) == name
  {
    QuotedFilenameRoundTrip(name);
  }

  // ---------------------------------------------------------------- cleaning

  /** Number of leading copies of c in s. */
  function RunLen(s: string, c: char): (n: nat)
    ensures n <= |s|
    ensures forall i :: 0 <= i < n ==> s[i] == c
    ensures n < |s| ==> s[n] != c
  {
    if s != [] && s[0] == c then 1 + RunLen(s[1..], c) else 0
  }

  /** re.sub(c{k,}, repl, s): every maximal run of at least k copies of c,
      left to right, becomes repl; shorter runs and other characters stay. */
  function Collapse(s: string, c: char, k: nat, repl: string): (r: string)
    ensures |repl| <= k ==> |r| <= |s|
    ensures s != [] && s[0] != c ==> r != [] && r[0] == s[0]
    decreases |s|
  {
    if s == [] then []
    else if s[0] == c then
      var n := RunLen(s, c);
      (if n >= k then repl else s[..n]) + Collapse(s[n..], c, k, repl)
    else [s[0]] + Collapse(s[1..], c, k, repl)
  }

  /** s holds no run of k or more copies of c. */
  predicate NoRun(s: string, c: char, k: nat)
    decreases |s|
  {
    s == [] || (RunLen(s, c) < k && NoRun(s[1..], c, k))
  }

  lemma {:induction false} NoRunSuffix(s: string, c: char, k: nat, j: nat)
    requires NoRun(s, c, k) && j <= |s|
    ensures NoRun(s[j..], c, k)
    decreases j
  {
    if j > 0 {
      NoRunSuffix(s[1..], c, k, j - 1);
      assert s[1..][j - 1..] == s[j..];
    }
  }

  /** Without a long run there is nothing to rewrite. */
  lemma {:induction false} CollapseWithoutRuns(s: string, c: char, k: nat, repl: string)
    requires NoRun(s, c, k)
    ensures Collapse(s, c, k, repl) == s
    decreases |s|
  {
    if s != [] {
      if s[0] == c {
        var n := RunLen(s, c);
        NoRunSuffix(s, c, k, n);
        CollapseWithoutRuns(s[n..], c, k, repl);
        assert s[..n] + s[n..] == s;
      } else {
        CollapseWithoutRuns(s[1..], c, k, repl);
      }
    }
  }

  function Repeat(c: char, n: nat): (r: string)
    ensures |r| == n && forall i :: 0 <= i < n ==> r[i] == c
  {
    if n == 0 then [] else [c] + Repeat(c, n - 1)
  }

  lemma {:induction false} RunLenAfterRun(a: string, b: string, c: char)
    requires forall i :: 0 <= i < |a| ==> a[i] == c
    ensures RunLen(a + b, c) == |a| + RunLen(b, c)
    decreases |a|
  {
    if a != [] {
      assert (a + b)[0] == a[0] == c;
      assert (a + b)[1..] == a[1..] + b;
      RunLenAfterRun(a[1..], b, c);
    } else {
      assert a + b == b;
    }
  }

  lemma {:induction false} NoRunAfterShortRun(a: string, b: string, c: char, k: nat)
    requires |a| < k && forall i :: 0 <= i < |a| ==> a[i] == c
    requires NoRun(b, c, k) && (b == [] || b[0] != c)
    ensures NoRun(a + b, c, k)
    decreases |a|
  {
    if a == [] {
      assert a + b == b;
    } else {
      RunLenAfterRun(a, b, c);
      assert RunLen(b, c) == 0;
      assert (a + b)[1..] == a[1..] + b;
      NoRunAfterShortRun(a[1..], b, c, k);
    }
  }

  /** The rewrite leaves no run it would rewrite again, when repl is k-1 copies of c. */
  lemma {:induction false} CollapseLeavesNoRun(s: string, c: char, k: nat)
    requires k >= 1
    ensures NoRun(Collapse(s, c, k, Repeat(c, k - 1)), c, k)
    decreases |s|
  {
    var repl := Repeat(c, k - 1);
    if s != [] {
      if s[0] == c {
        var n := RunLen(s, c);
        var seg := if n >= k then repl else s[..n];
        var tail := Collapse(s[n..], c, k, repl);
        CollapseLeavesNoRun(s[n..], c, k);
        NoRunAfterShortRun(seg, tail, c, k);
      } else {
        var tail := Collapse(s[1..], c, k, repl);
        CollapseLeavesNoRun(s[1..], c, k);
        assert RunLen([s[0]] + tail, c) == 0;
        assert ([s[0]] + tail)[1..] == tail;
      }
    }
  }

  /** A run that ends inside a is not lengthened by what follows a. */
  lemma {:induction false} RunLenWithin(a: string, b: string, c: char)
    requires RunLen(a, c) < |a|
    ensures RunLen(a + b, c) == RunLen(a, c)
    decreases |a|
  {
    if a[0] == c {
      assert (a + b)[1..] == a[1..] + b;
      RunLenWithin(a[1..], b, c);
    }
  }

  /** The rewrite works piece by piece: cut where no run of c continues
      across the cut, the text is rewritten as its two parts are. */
  lemma {:induction false} CollapseSplits(a: string, b: string, c: char, k: nat, repl: string)
    requires a == [] || b == [] || a[|a| - 1] != c || b[0] != c
    ensures Collapse(a + b, c, k, repl) == Collapse(a, c, k, repl) + Collapse(b, c, k, repl)
    decreases |a|
  {
    if a == [] {
      assert a + b == b;
    } else if a[0] != c {
      CollapseSplits(a[1..], b, c, k, repl);
      CollapseSplitsAtOther(a, b, c, k, repl);
    } else {
      var n := RunLen(a, c);
      if n == |a| {
        RunLenAfterRun(a, b, c);
        assert a[n..] == [] && a[n..] + b == b;
      } else {
        RunLenWithin(a, b, c);
        var r := a[n..];
        assert r[|r| - 1] == a[|a| - 1];
        CollapseSplits(r, b, c, k, repl);
      }
      CollapseSplitsAtRun(a, b, c, k, repl);
    }
  }

  /** The step of CollapseSplits past a character other than c. */
  lemma CollapseSplitsAtOther(a: string, b: string, c: char, k: nat, repl: string)
    requires a != [] && a[0] != c
    requires Collapse(a[1..] + b, c, k, repl) == Collapse(a[1..], c, k, repl) + Collapse(b, c, k, repl)
    ensures Collapse(a + b, c, k, repl) == Collapse(a, c, k, repl) + Collapse(b, c, k, repl)
  {
    CollapseOtherStep(a, b, c, k, repl);
    SeqAssoc([a[0]], Collapse(a[1..], c, k, repl), Collapse(b, c, k, repl));
  }

  /** The step of CollapseSplits past the leading run of c in a, when b does not extend it. */
  lemma CollapseSplitsAtRun(a: string, b: string, c: char, k: nat, repl: string)
    requires a != [] && a[0] == c && RunLen(a + b, c) == RunLen(a, c)
    requires var n := RunLen(a, c);
      Collapse(a[n..] + b, c, k, repl) == Collapse(a[n..], c, k, repl) + Collapse(b, c, k, repl)
    ensures Collapse(a + b, c, k, repl) == Collapse(a, c, k, repl) + Collapse(b, c, k, repl)
  {
    var n := RunLen(a, c);
    var seg := if n >= k then repl else a[..n];
    CollapseRunStep(a, b, c, k, repl);
    assert Collapse(a, c, k, repl) == seg + Collapse(a[n..], c, k, repl);
    SeqAssoc(seg, Collapse(a[n..], c, k, repl), Collapse(b, c, k, repl));
  }

  lemma SeqAssoc(x: string, y: string, z: string)
    ensures x + (y + z) == (x + y) + z
  {
  }

  lemma CollapseOtherStep(a: string, b: string, c: char, k: nat, repl: string)
    requires a != [] && a[0] != c
    ensures Collapse(a + b, c, k, repl) == [a[0]] + Collapse(a[1..] + b, c, k, repl)
  {
    assert (a + b)[1..] == a[1..] + b;
  }

  lemma CollapseRunStep(a: string, b: string, c: char, k: nat, repl: string)
    requires a != [] && a[0] == c && RunLen(a + b, c) == RunLen(a, c)
    ensures var n := RunLen(a, c);
      Collapse(a + b, c, k, repl) == (if n >= k then repl else a[..n]) + Collapse(a[n..] + b, c, k, repl)
  {
    var n := RunLen(a, c);
    assert (a + b)[..n] == a[..n];
    assert (a + b)[n..] == a[n..] + b;
  }

  /** The pieces: a maximal run of n copies of c becomes repl when n >= k and
      stays otherwise, and any other character stays. With CollapseSplits these
      fix the rewrite of every text. */
  lemma {:induction false} CollapsePieces(c: char, x: char, n: nat, k: nat, repl: string)
    requires n >= 1
    ensures Collapse(Repeat(c, n), c, k, repl) == if n >= k then repl else Repeat(c, n)
    ensures x != c ==> Collapse([x], c, k, repl) == [x]
  {
    var r := Repeat(c, n);
    RunLenAfterRun(r, [], c);
    assert r + [] == r;
    assert r[..n] == r && r[n..] == [];
    assert [x][1..] == [];
  }

  /** Length of the run of ASCII digits that starts s (\d). */
  function DigitRun(s: string): (n: nat)
    ensures n <= |s|
    ensures forall i :: 0 <= i < n ==> IsDigit(s[i])
    ensures n < |s| ==> !IsDigit(s[n])
  {
    if s != [] && IsDigit(s[0]) then 1 + DigitRun(s[1..]) else 0
  }

  predicate AllDigits(w: string) {
    forall i :: 0 <= i < |w| ==> IsDigit(w[i])
  }

  /** s starts with `Page `, a digits, ` of ` and b digits. */
  predicate FooterShape(s: string, a: nat, b: nat) {
    && 0 < a && 0 < b && 9 + a + b <= |s|
    && s[..5] == "Page " && AllDigits(s[5..5 + a])
    && s[5 + a..9 + a] == " of " && AllDigits(s[9 + a..9 + a + b])
  }

  /** Length of a match of `Page \d+ of \d+` at the start of s: None when no
      text of that shape starts s; otherwise a match whose second digit run is
      maximal (the greedy \d+). The first run is forced: a shorter one would be
      followed by a digit, not " of ". */
  function FooterLen(s: string): (n: Option<nat>)
    ensures n.Some? ==> 11 <= n.value <= |s| && "Page " <= s
  {
    if !("Page " <= s) then None
    else
      var d1 := DigitRun(s[5..]);
      var rest := s[5 + d1..];
      if d1 == 0 || !(" of " <= rest) then None
      else
        var d2 := DigitRun(s[9 + d1..]);
        if d2 == 0 then None
        else Some(5 + d1 + 4 + d2)
  }

  /** FooterLen matches exactly the footers: what it finds has the shape
      "Page <digits> of <digits>" with the second run maximal, and every text
      that starts with that shape is matched. */
  lemma FooterLenMatchesPattern(s: string)
    ensures FooterLen(s).Some? ==> exists a: nat, b: nat ::
      FooterShape(s, a, b) && FooterLen(s).value == 9 + a + b
      && (FooterLen(s).value == |s| || !IsDigit(s[FooterLen(s).value]))
    ensures forall a: nat, b: nat :: FooterShape(s, a, b) ==> FooterLen(s).Some?
  {
    if FooterLen(s).Some? {
      var d1 := DigitRun(s[5..]);
      var d2 := DigitRun(s[9 + d1..]);
      MatchHasShape(s, d1, d2);
    }
    forall a: nat, b: nat | FooterShape(s, a, b) ensures FooterLen(s).Some? {
      FirstRunForced(s, a, b);
    }
  }

  /** The runs FooterLen finds give a footer of that shape, with a maximal second run. */
  lemma MatchHasShape(s: string, d1: nat, d2: nat)
    requires 9 <= |s| && "Page " <= s && d1 == DigitRun(s[5..]) && 0 < d1
    requires " of " <= s[5 + d1..] && d2 == DigitRun(s[9 + d1..]) && 0 < d2
    ensures FooterShape(s, d1, d2) && (9 + d1 + d2 == |s| || !IsDigit(s[9 + d1 + d2]))
  {
    assert s[5..5 + d1] == s[5..][..d1];
    assert s[5 + d1..9 + d1] == s[5 + d1..][..4];
    assert s[9 + d1..9 + d1 + d2] == s[9 + d1..][..d2];
  }

  /** In a footer of shape (a, b) the first digit run is exactly a, " of "
      follows it, and the second run holds at least b digits. */
  lemma FirstRunForced(s: string, a: nat, b: nat)
    requires FooterShape(s, a, b)
    ensures "Page " <= s && DigitRun(s[5..]) == a && " of " <= s[5 + a..] && DigitRun(s[9 + a..]) >= b
  {
    var t := s[5..];
    assert forall i :: 0 <= i < a ==> t[i] == s[5..5 + a][i];
    assert t[a] == s[5 + a..9 + a][0];
    DigitRunIs(t, a);
    assert s[5 + a..][..4] == s[5 + a..9 + a];
    var u := s[9 + a..];
    assert forall i :: 0 <= i < b ==> u[i] == s[9 + a..9 + a + b][i];
    DigitRunAtLeast(u, b);
  }

  lemma {:induction false} DigitRunIs(t: string, a: nat)
    requires a <= |t| && (forall i :: 0 <= i < a ==> IsDigit(t[i])) && (a == |t| || !IsDigit(t[a]))
    ensures DigitRun(t) == a
    decreases a
  {
    if a > 0 {
      DigitRunIs(t[1..], a - 1);
    }
  }

  lemma {:induction false} DigitRunAtLeast(t: string, b: nat)
    requires b <= |t| && forall i :: 0 <= i < b ==> IsDigit(t[i])
    ensures DigitRun(t) >= b
    decreases b
  {
    if b > 0 {
      DigitRunAtLeast(t[1..], b - 1);
    }
  }

  /** re.sub(r'Page \d+ of \d+', '', s), scanning left to right. */
  function RemoveFooters(s: string): (r: string)
    ensures |r| <= |s|
    decreases |s|
  {
    if s == [] then []
    else
      match FooterLen(s)
      case Some(n) => RemoveFooters(s[n..])
      case None => [s[0]] + RemoveFooters(s[1..])
  }

  /** Text that holds no P is kept as it is, and the scan goes on after it. */
  lemma {:induction false} RemoveFootersKeepsPrefix(p: string, t: string)
    requires forall i :: 0 <= i < |p| ==> p[i] != 'P'
    ensures RemoveFooters(p + t) == p + RemoveFooters(t)
    decreases |p|
  {
    if p == [] {
      assert p + t == t;
    } else {
      var q := p[1..];
      RemoveFootersStep(p, t);
      RemoveFootersKeepsPrefix(q, t);
      SeqAssoc([p[0]], q, RemoveFooters(t));
      assert p == [p[0]] + q;
    }
  }

  lemma RemoveFootersStep(p: string, t: string)
    requires p != [] && p[0] != 'P'
    ensures RemoveFooters(p + t) == [p[0]] + RemoveFooters(p[1..] + t)
  {
    RemoveFootersKeepsNonP(p + t);
    assert (p + t)[1..] == p[1..] + t;
  }

  /** Text before a footer that holds no P is kept, the footer is deleted, and
      the scan goes on after it. */
  lemma RemoveFootersDeletesFooter(p: string, s: string, n: nat)
    requires forall i :: 0 <= i < |p| ==> p[i] != 'P'
    requires FooterLen(s) == Some(n)
    ensures RemoveFooters(p + s) == p + RemoveFooters(s[n..])
  {
    RemoveFootersKeepsPrefix(p, s);
    assert s != [];
  }

  /** No position of s starts a footer. */
  predicate NoFooter(s: string)
    decreases |s|
  {
    s == [] || (FooterLen(s).None? && NoFooter(s[1..]))
  }

  lemma {:induction false} RemoveFootersWithoutFooter(s: string)
    requires NoFooter(s)
    ensures RemoveFooters(s) == s
    decreases |s|
  {
    if s != [] {
      RemoveFootersWithoutFooter(s[1..]);
    }
  }

  /** cleanText: collapse newline runs, then space runs, drop page footers, strip. */
  function CleanText(text: Option<string>): (r: string)
    ensures text.None? || text.value == [] ==> r == []
    ensures text.Some? ==> |r| <= |text.value|
    ensures Trimmed(r)
  {
    if text.None? || text.value == [] then ""
    else Strip(RemoveFooters(Collapse(Collapse(text.value, '\n', 3, "\n\n"), ' ', 2, " ")))
  }

  /** Text with nothing to rewrite is only stripped. */
  lemma {:induction false} CleanTextOfPlainText(t: string)
    requires NoRun(t, '\n', 3) && NoRun(t, ' ', 2) && NoFooter(t)
    ensures CleanText(Some(t)) == Strip(t)
  {
    if t != [] {
      CollapseWithoutRuns(t, '\n', 3, "\n\n");
      CollapseWithoutRuns(t, ' ', 2, " ");
      RemoveFootersWithoutFooter(t);
    }
  }

  /** Each of the first two rewrites removes the runs it targets. */
  lemma {:induction false} CleanTextRewritesCollapse(t: string)
    ensures NoRun(Collapse(t, '\n', 3, "\n\n"), '\n', 3)
    ensures NoRun(Collapse(t, ' ', 2, " "), ' ', 2)
  {
    assert Repeat('\n', 2) == "\n\n";
    assert Repeat(' ', 1) == " ";
    CollapseLeavesNoRun(t, '\n', 3);
    CollapseLeavesNoRun(t, ' ', 2);
  }

  /** cleanText through its four stages. */
  lemma CleanTextStages(s: string, a: string, b: string, c: string, d: string)
    requires s != [] && Collapse(s, '\n', 3, "\n\n") == a && Collapse(a, ' ', 2, " ") == b
    requires RemoveFooters(b) == c && Strip(c) == d
    ensures CleanText(Some(s)) == d
  {
  }

  /** A trimmed text without spaces and without the letter P passes the last three stages unchanged. */
  lemma {:induction false} LaterStagesKeep(c: string)
    requires Trimmed(c) && forall i :: 0 <= i < |c| ==> c[i] != ' ' && c[i] != 'P'
    ensures Collapse(c, ' ', 2, " ") == c && RemoveFooters(c) == c && Strip(c) == c
  {
    NoRunOfAbsent(c, ' ', 2);
    CollapseWithoutRuns(c, ' ', 2, " ");
    NoFooterOfAbsent(c);
    RemoveFootersWithoutFooter(c);
    StripOfTrimmed(c);
  }

  lemma {:induction false} NewlinesKept(s: string)
    requires forall i :: 0 <= i < |s| ==> s[i] != '\n'
    ensures Collapse(s, '\n', 3, "\n\n") == s
  {
    NoRunOfAbsent(s, '\n', 3);
    CollapseWithoutRuns(s, '\n', 3, "\n\n");
  }

  lemma CollapseFourNewlines()
    ensures Collapse("a\n\n\n\nb", '\n', 3, "\n\n") == "a\n\nb"
  {
    var s := "a\n\n\n\nb";
    assert s[1..] == "\n\n\n\nb";
    assert RunLen("\n\n\n\nb", '\n') == 4;
    assert "\n\n\n\nb"[4..] == "b";
  }

  /** Four newlines collapse to one blank line. */
  lemma CleanTextCollapsesBlankLines()
    ensures CleanText(Some("a\n\n\n\nb")) == "a\n\nb"
  {
    CollapseFourNewlines();
    LaterStagesKeep("a\n\nb");
    CleanTextStages("a\n\n\n\nb", "a\n\nb", "a\n\nb", "a\n\nb", "a\n\nb");
  }

  lemma FooterOfPage1Of2()
    ensures FooterLen("Page 1 of 2 b") == Some(11)
  {
    var s := "Page 1 of 2 b";
    assert s[..5] == "Page ";
    assert s[5..] == "1 of 2 b";
    assert DigitRun("1 of 2 b") == 1;
    assert s[6..] == " of 2 b";
    assert s[6..][..4] == " of ";
    assert s[6..][4..] == "2 b";
    assert DigitRun("2 b") == 1;
  }

  /** A position where no footer starts is copied through, and the leftmost
      scan resumes one character later (also at a 'P', as in "PPage 1 of 2"). */
  lemma RemoveFootersSkipsNonFooter(s: string)
    requires s != [] && FooterLen(s).None?
    ensures RemoveFooters(s) == [s[0]] + RemoveFooters(s[1..])
  {
  }

  /** A position not holding 'P' starts no footer and is kept. */
  lemma {:induction false} RemoveFootersKeepsNonP(s: string)
    requires s != [] && s[0] != 'P'
    ensures RemoveFooters(s) == [s[0]] + RemoveFooters(s[1..])
  {
    assert s[0] != "Page "[0];
    RemoveFootersSkipsNonFooter(s);
  }

  lemma FooterExampleFirstChar()
    ensures RemoveFooters("a Page 1 of 2 b") == "a" + RemoveFooters(" Page 1 of 2 b")
  {
    var s := "a Page 1 of 2 b";
    assert s[1..] == " Page 1 of 2 b";
    RemoveFootersKeepsNonP(s);
  }

  lemma FooterExampleSecondChar()
    ensures RemoveFooters(" Page 1 of 2 b") == " " + RemoveFooters("Page 1 of 2 b")
  {
    var s := " Page 1 of 2 b";
    assert s[1..] == "Page 1 of 2 b";
    RemoveFootersKeepsNonP(s);
  }

  lemma FooterExampleFooter()
    ensures RemoveFooters("Page 1 of 2 b") == " b"
  {
    FooterOfPage1Of2();
    assert "Page 1 of 2 b"[11..] == " b";
    NoFooterOfAbsent(" b");
    RemoveFootersWithoutFooter(" b");
  }

  /** Removing the footer leaves the two spaces around it side by side. */
  lemma FooterLeavesDoubleSpace()
    ensures RemoveFooters("a Page 1 of 2 b") == "a  b"
  {
    FooterExampleFirstChar();
    FooterExampleSecondChar();
    FooterExampleFooter();
    FooterRemovalJoins(RemoveFooters("a Page 1 of 2 b"), RemoveFooters(" Page 1 of 2 b"), RemoveFooters("Page 1 of 2 b"));
  }

  lemma FooterRemovalJoins(x: string, y: string, z: string)
    requires x == "a" + y && y == " " + z && z == " b"
    ensures x == "a  b"
  {
  }

  lemma FooterExampleNewlines()
    ensures Collapse("a Page 1 of 2 b", '\n', 3, "\n\n") == "a Page 1 of 2 b"
  {
    NewlinesKept("a Page 1 of 2 b");
  }

  lemma FooterExampleSpaces()
    ensures Collapse("a Page 1 of 2 b", ' ', 2, " ") == "a Page 1 of 2 b"
  {
    var s := "a Page 1 of 2 b";
    NoRunSingleSpaces(s);
    CollapseWithoutRuns(s, ' ', 2, " ");
  }

  lemma CollapseDoubleSpace()
    ensures Collapse("a  b", '\n', 3, "\n\n") == "a  b"
    ensures Collapse("a  b", ' ', 2, " ") == "a b"
  {
    var t := "a  b";
    NewlinesKept(t);
    assert t[1..] == "  b";
    assert RunLen("  b", ' ') == 2;
    assert "  b"[2..] == "b";
  }

  lemma DoubleSpaceLaterStages()
    ensures RemoveFooters("a b") == "a b" && Strip("a b") == "a b" && Strip("a  b") == "a  b"
  {
    NoFooterOfAbsent("a b");
    RemoveFootersWithoutFooter("a b");
    StripOfTrimmed("a b");
    StripOfTrimmed("a  b");
  }

  /** Removing a footer can bring two spaces together, so a second cleaning
      changes the result again: cleanText is not idempotent. */
  lemma CleanTextNotIdempotent()
    ensures CleanText(Some("a Page 1 of 2 b")) == "a  b"
    ensures CleanText(Some("a  b")) == "a b"
  {
    FooterExampleNewlines();
    FooterExampleSpaces();
    FooterLeavesDoubleSpace();
    CollapseDoubleSpace();
    DoubleSpaceLaterStages();
    var s := "a Page 1 of 2 b";
    CleanTextStages(s, s, s, "a  b", "a  b");
    CleanTextStages("a  b", "a  b", "a b", "a b", "a b");
  }

  /** Text without the letter P has no footer. */
  lemma {:induction false} NoFooterOfAbsent(s: string)
    requires forall i :: 0 <= i < |s| ==> s[i] != 'P'
    ensures NoFooter(s)
    decreases |s|
  {
    if s != [] {
      assert s[0] != "Page "[0];
      NoFooterOfAbsent(s[1..]);
    }
  }

  lemma {:induction false} NoRunOfAbsent(s: string, c: char, k: nat)
    requires k >= 1 && forall i :: 0 <= i < |s| ==> s[i] != c
    ensures NoRun(s, c, k)
    decreases |s|
  {
    if s != [] {
      NoRunOfAbsent(s[1..], c, k);
    }
  }

  lemma {:induction false} NoRunSingleSpaces(s: string)
    requires forall i :: 0 <= i && i + 1 < |s| ==> !(s[i] == ' ' && s[i + 1] == ' ')
    ensures NoRun(s, ' ', 2)
    decreases |s|
  {
    if s != [] {
      if s[0] == ' ' && |s| > 1 {
        assert RunLen(s[1..], ' ') == 0;
      }
      forall i | 0 <= i && i + 1 < |s[1..]| ensures !(s[1..][i] == ' ' && s[1..][i + 1] == ' ') {
        assert s[1..][i] == s[i + 1] && s[1..][i + 1] == s[i + 2];
      }
      NoRunSingleSpaces(s[1..]);
    }
  }

  // ---------------------------------------------------------------- documents

  /** prepareTextForLLM: clean the text, truncate it only when max_chars is
      truthy and the cleaned text is longer, and copy the other fields. */
  function PrepareTextForLLM(doc: ParsedDocument, maxChars: Option<int>): (r: LlmDocument)
    ensures r.documentId == doc.documentId && r.filename == doc.filename && r.metadata == doc.metadata
    ensures var t := CleanText(Some(doc.text));
      if Truthy(maxChars) && |t| > maxChars.value
      then r.text == PyPrefix(t, maxChars.value) + TruncationMarker
      else r.text == t
  {
    var text := CleanText(Some(doc.text));
    var text := if Truthy(maxChars) && |text| > maxChars.value
                then PyPrefix(text, maxChars.value) + TruncationMarker
                else text;
    LlmDocument(doc.documentId, doc.filename, text, doc.metadata)
  }

  /** With a positive limit m the prepared text keeps the first m cleaned
      characters and is at most m plus the marker long; without a limit it is
      the cleaned text, never longer than the parsed text. */
  lemma {:induction false} PreparedTextBounds(doc: ParsedDocument, maxChars: Option<int>)
    ensures maxChars.Some? && maxChars.value > 0 ==>
      var r := PrepareTextForLLM(doc, maxChars).text;
      var m := maxChars.value;
      && |r| <= m + |TruncationMarker|
      && (|CleanText(Some(doc.text))| > m ==> r[..m] == CleanText(Some(doc.text))[..m])
    ensures !Truthy(maxChars) ==>
      PrepareTextForLLM(doc, maxChars).text == CleanText(Some(doc.text))
      && |PrepareTextForLLM(doc, maxChars).text| <= |doc.text|
  {
    var t := CleanText(Some(doc.text));
    var r := PrepareTextForLLM(doc, maxChars).text;
    if maxChars.Some? && maxChars.value > 0 {
      var m := maxChars.value;
      if |t| > m {
        assert PyPrefix(t, m) == t[..m];
        assert r == t[..m] + TruncationMarker;
        assert r[..m] == t[..m];
      } else {
        assert r == t;
      }
    } else if !Truthy(maxChars) {
      assert r == t;
    }
  }


  /** parsePdfFromDocumentId: None when the download is missing or empty, or
      PyMuPDF yields no text; otherwise the document with its counts. */
  function ParsePdfFromDocumentId(documentId: string, resp: PortalResponse): (r: Option<ParsedDocument>)
    ensures r.None? <==>
      || resp.body.None? || resp.body.value == []
      || resp.pages.None? || Join(resp.pages.value, PageSeparator) == []
    ensures r.Some? ==>
      && r.value.documentId == documentId
      && r.value.text == Join(resp.pages.value, PageSeparator)
      && r.value.textLength == |r.value.text|
      && r.value.wordCount == WordStarts(r.value.text, true)
      && r.value.filename == GetFilenameFromResponse(documentId, resp.contentDisposition)
      && r.value.metadata == resp.metadata
  {
    if resp.body.None? || resp.body.value == [] then None
    else
      match ExtractedText(resp.pages)
      case None => None
      case Some(text) =>
        if text == [] then None
        else
          SplitCountsWordStarts(text);
          Some(ParsedDocument(documentId, GetFilenameFromResponse(documentId, resp.contentDisposition),
                              text, |text|, resp.metadata, |Split(text)|))
  }

  /** Parsing fails exactly when the download is missing or empty, PyMuPDF
      raises, or the document has no pages or a single empty page; missing
      metadata never makes it fail. */
  lemma {:induction false} ParseFailsExactly(documentId: string, resp: PortalResponse, other: Option<Metadata>)
    ensures ParsePdfFromDocumentId(documentId, resp).None? <==>
      || resp.body.None? || resp.body.value == [] || resp.pages.None?
      || |resp.pages.value| == 0 || (|resp.pages.value| == 1 && resp.pages.value[0] == [])
    ensures ParsePdfFromDocumentId(documentId, resp).None? ==
            ParsePdfFromDocumentId(documentId, resp.(metadata := other)).None?
  {
    if resp.pages.Some? {
      JoinEmptyIff(resp.pages.value, PageSeparator);
    }
  }

  // ---------------------------------------------------------------- batch

  /** The ids parseMultiplePdfs works on: the first max_docs when it is truthy. */
  function ProcessedIds(ids: seq<string>, maxDocs: Option<int>): seq<string>
  {
    if Truthy(maxDocs) then PyPrefix(ids, maxDocs.value) else ids
  }

  lemma {:induction false} ProcessedIdsCount(ids: seq<string>, maxDocs: Option<int>)
    ensures ProcessedIds(ids, maxDocs) <= ids
    ensures maxDocs.Some? && maxDocs.value > 0 ==> |ProcessedIds(ids, maxDocs)| == Min(maxDocs.value, |ids|)
    ensures !Truthy(maxDocs) ==> ProcessedIds(ids, maxDocs) == ids
  {
  }

  /** parsePdfFromDocumentId run against one portal, as a function of the id. */
  function ParseWith(portal: Portal): string -> Option<ParsedDocument>
  {
    id => ParsePdfFromDocumentId(id, portal(id))
  }

  /** A parse result always carries the id it was asked for. */
  ghost predicate KeepsId(parse: string -> Option<ParsedDocument>) {
    forall id :: parse(id).Some? ==> parse(id).value.documentId == id
  }

  lemma ParseWithKeepsId(portal: Portal)
    ensures KeepsId(ParseWith(portal))
  {
    forall id | ParseWith(portal)(id).Some?
      ensures ParseWith(portal)(id).value.documentId == id
    {
      assert ParseWith(portal)(id) == ParsePdfFromDocumentId(id, portal(id));
    }
  }

  /** The documents that parse, in id order. */
  function ParsedOf(ids: seq<string>, parse: string -> Option<ParsedDocument>): (ds: seq<ParsedDocument>)
    ensures |ds| <= |ids|
    decreases |ids|
  {
    if ids == [] then []
    else
      var r := parse(ids[|ids| - 1]);
      ParsedOf(ids[..|ids| - 1], parse) + (if r.Some? then [r.value] else [])
  }

  /** Each parsed document is the parse of an id of the batch, carrying that id. */
  lemma {:induction false} ParsedOfFromIds(ids: seq<string>, parse: string -> Option<ParsedDocument>)
    requires KeepsId(parse)
    ensures forall k :: 0 <= k < |ParsedOf(ids, parse)| ==>
      ParsedOf(ids, parse)[k].documentId in ids && parse(ParsedOf(ids, parse)[k].documentId) == Some(ParsedOf(ids, parse)[k])
    decreases |ids|
  {
    if ids != [] {
      var init := ids[..|ids| - 1];
      var id := ids[|ids| - 1];
      ParsedOfFromIds(init, parse);
      var p := ParsedOf(init, parse);
      var ds := ParsedOf(ids, parse);
      forall k | 0 <= k < |ds|
        ensures ds[k].documentId in ids && parse(ds[k].documentId) == Some(ds[k])
      {
        if k < |p| {
          assert ds[k] == p[k];
          assert ds[k].documentId in init;
        } else {
          assert ds[k] == parse(id).value;
        }
      }
    }
  }

  /** The ids that fail to parse, in id order. */
  function FailedOf(ids: seq<string>, parse: string -> Option<ParsedDocument>): (fs: seq<string>)
    ensures |fs| <= |ids|
    ensures forall k :: 0 <= k < |fs| ==> parse(fs[k]).None?
    decreases |ids|
  {
    if ids == [] then []
    else
      var id := ids[|ids| - 1];
      FailedOf(ids[..|ids| - 1], parse) + (if parse(id).None? then [id] else [])
  }

  function DocumentIds(ds: seq<ParsedDocument>): (ids: seq<string>)
    ensures |ids| == |ds| && forall k :: 0 <= k < |ds| ==> ids[k] == ds[k].documentId
  {
    if ds == [] then [] else DocumentIds(ds[..|ds| - 1]) + [ds[|ds| - 1].documentId]
  }

  lemma DocumentIdsSnoc(p: seq<ParsedDocument>, d: ParsedDocument)
    ensures DocumentIds(p + [d]) == DocumentIds(p) + [d.documentId]
  {
    assert (p + [d])[..|p|] == p;
  }

  lemma PartitionStep(init: seq<string>, id: string, p: seq<ParsedDocument>, f: seq<string>, r: Option<ParsedDocument>)
    requires multiset(DocumentIds(p)) + multiset(f) == multiset(init)
    requires r.Some? ==> r.value.documentId == id
    ensures multiset(DocumentIds(p + (if r.Some? then [r.value] else []))) + multiset(f + (if r.None? then [id] else []))
      == multiset(init + [id])
  {
    assert multiset(init + [id]) == multiset(init) + multiset{id};
    if r.Some? {
      DocumentIdsSnoc(p, r.value);
      assert f + [] == f;
      assert multiset(DocumentIds(p) + [id]) == multiset(DocumentIds(p)) + multiset{id};
    } else {
      assert p + [] == p;
      assert multiset(f + [id]) == multiset(f) + multiset{id};
    }
  }

  /** Every processed id lands in exactly one of the two lists. */
  lemma {:induction false} ParsedFailedPartition(ids: seq<string>, parse: string -> Option<ParsedDocument>)
    requires KeepsId(parse)
    ensures |ParsedOf(ids, parse)| + |FailedOf(ids, parse)| == |ids|
    ensures multiset(DocumentIds(ParsedOf(ids, parse))) + multiset(FailedOf(ids, parse)) == multiset(ids)
    decreases |ids|
  {
    if ids != [] {
      var init := ids[..|ids| - 1];
      var id := ids[|ids| - 1];
      assert ids == init + [id];
      ParsedFailedPartition(init, parse);
      PartitionStep(init, id, ParsedOf(init, parse), FailedOf(init, parse), parse(id));
    }
  }

  /** Both lists keep input order: splitting the ids splits the results. */
  lemma {:induction false} ParsedFailedKeepOrder(a: seq<string>, b: seq<string>, parse: string -> Option<ParsedDocument>)
    ensures ParsedOf(a + b, parse) == ParsedOf(a, parse) + ParsedOf(b, parse)
    ensures FailedOf(a + b, parse) == FailedOf(a, parse) + FailedOf(b, parse)
    decreases |b|
  {
    if b == [] {
      assert a + b == a;
    } else {
      var init := b[..|b| - 1];
      assert (a + b)[..|a + b| - 1] == a + init;
      ParsedFailedKeepOrder(a, init, parse);
    }
  }

  /** The parsed documents and the failed ids among the first i ids. */
  function ParsedUpTo(ids: seq<string>, parse: string -> Option<ParsedDocument>, i: nat): seq<ParsedDocument>
    requires i <= |ids|
  {
    if i == 0 then []
    else
      var r := parse(ids[i - 1]);
      ParsedUpTo(ids, parse, i - 1) + (if r.Some? then [r.value] else [])
  }

  function FailedUpTo(ids: seq<string>, parse: string -> Option<ParsedDocument>, i: nat): seq<string>
    requires i <= |ids|
  {
    if i == 0 then []
    else
      FailedUpTo(ids, parse, i - 1) + (if parse(ids[i - 1]).None? then [ids[i - 1]] else [])
  }

  lemma UpToStep(ids: seq<string>, parse: string -> Option<ParsedDocument>, i: nat)
    requires i < |ids|
    ensures var r := parse(ids[i]);
      && ParsedUpTo(ids, parse, i + 1) == ParsedUpTo(ids, parse, i) + (if r.Some? then [r.value] else [])
      && FailedUpTo(ids, parse, i + 1) == FailedUpTo(ids, parse, i) + (if r.None? then [ids[i]] else [])
  {
  }

  /** Sorting the ids one at a time gives the two lists of the whole prefix. */
  lemma {:induction false} UpToIsOf(ids: seq<string>, parse: string -> Option<ParsedDocument>, i: nat)
    requires i <= |ids|
    ensures ParsedUpTo(ids, parse, i) == ParsedOf(ids[..i], parse)
    ensures FailedUpTo(ids, parse, i) == FailedOf(ids[..i], parse)
  {
    if i > 0 {
      UpToIsOf(ids, parse, i - 1);
      assert ids[..i][..i - 1] == ids[..i - 1];
    }
  }

  /** parseMultiplePdfs: parse each processed id in turn, sorting it into the
      parsed documents or the failed ids. */
  method ParseMultiplePdfs(documentIds: seq<string>, maxDocs: Option<int>, portal: Portal)
    returns (parsed: seq<ParsedDocument>, failed: seq<string>)
    ensures parsed == ParsedOf(ProcessedIds(documentIds, maxDocs), ParseWith(portal))
    ensures failed == FailedOf(ProcessedIds(documentIds, maxDocs), ParseWith(portal))
  {
    var ids := documentIds;
    if Truthy(maxDocs) {
      ids := PyPrefix(ids, maxDocs.value);
    }
    ghost var processed := ProcessedIds(documentIds, maxDocs);
    assert ids == processed;
    ghost var parse := ParseWith(portal);
    parsed, failed := [], [];
    var idx := 0;
    while idx < |ids|
      invariant 0 <= idx <= |ids|
      invariant parsed == ParsedUpTo(ids, parse, idx)
      invariant failed == FailedUpTo(ids, parse, idx)
    {
      var docId := ids[idx];
      var result := ParsePdfFromDocumentId(docId, portal(docId));
      assert result == parse(docId);
      UpToStep(ids, parse, idx);
      if result.Some? {
        parsed := parsed + [result.value];
      } else {
        failed := failed + [docId];
      }
      idx := idx + 1;
    }
    UpToIsOf(ids, parse, idx);
    assert ids[..idx] == processed;
  }
}
