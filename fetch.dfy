/** flask-backend/scraper/fetchers/fetch.py: pick the FileStream links out of
    the portal's meeting page. Downloading and parsing the page are left to the
    caller: the input is the href of every anchor that has one, in page order. */
module Fetch {
  import opened Strings

  const BaseUrl := "https://pub-london.escribemeetings.com/"
  const Https := "https://"
  const FileStreamMarker := "FileStream.ashx"

  /** The address recorded for a matching href: kept when already absolute
      over https, otherwise resolved against the portal's base URL. */
  function Absolute(href: string): (url: string)
    ensures Https <= url
    ensures |href| <= |url| && url[|url| - |href|..] == href
    ensures Https <= href ==> url == href
    ensures !(Https <= href) ==> url == BaseUrl + href
  {
    if Https <= href then href else BaseUrl + href
  }

  /** Resolving an address that is already absolute changes nothing. */
  lemma AbsoluteIdempotent(href: string)
    ensures Absolute(Absolute(href)) == Absolute(href)
    ensures Https <= href ==> Absolute(href) == href
  {
  }

  lemma {:induction false} ContainsInSuffix(p: string, s: string, sub: string)
    requires Contains(s, sub)
    ensures Contains(p + s, sub)
  {
    ContainsIff(s, sub);
    var i :| OccursAt(s, i, sub);
    assert (p + s)[|p| + i..|p| + i + |sub|] == s[i..i + |sub|];
    assert OccursAt(p + s, |p| + i, sub);
    ContainsIff(p + s, sub);
  }

  /** The hrefs that point at a FileStream document, in page order. */
  function Matching(hrefs: seq<string>): (ms: seq<string>)
    ensures |ms| <= |hrefs|
    ensures forall k :: 0 <= k < |ms| ==> Contains(ms[k], FileStreamMarker) && ms[k] in hrefs
    decreases |hrefs|
  {
    if hrefs == [] then []
    else
      var n := |hrefs|;
      Matching(hrefs[..n - 1]) + (if Contains(hrefs[n - 1], FileStreamMarker) then [hrefs[n - 1]] else [])
  }

  /** No FileStream href is missed: an href is kept exactly when it contains the marker. */
  lemma {:induction false} MatchingSelects(hrefs: seq<string>)
    ensures forall h :: h in hrefs ==> (h in Matching(hrefs) <==> Contains(h, FileStreamMarker))
    decreases |hrefs|
  {
    if hrefs != [] {
      var n := |hrefs|;
      var init := hrefs[..n - 1];
      MatchingSelects(init);
      assert hrefs == init + [hrefs[n - 1]];
    }
  }

  /** The links scrapePage collects: every matching href, made absolute. */
  function PdfLinks(hrefs: seq<string>): (links: seq<string>)
    ensures |links| == |Matching(hrefs)|
    ensures forall k :: 0 <= k < |links| ==> links[k] == Absolute(Matching(hrefs)[k])
    decreases |hrefs|
  {
    if hrefs == [] then []
    else
      var n := |hrefs|;
      var h := hrefs[n - 1];
      PdfLinks(hrefs[..n - 1]) + (if Contains(h, FileStreamMarker) then [Absolute(h)] else [])
  }

  /** Every collected link is an https address of a FileStream document. */
  lemma PdfLinksAreFileStreamUrls(hrefs: seq<string>)
    ensures forall k :: 0 <= k < |PdfLinks(hrefs)| ==>
      Https <= PdfLinks(hrefs)[k] && Contains(PdfLinks(hrefs)[k], FileStreamMarker)
  {
    var links := PdfLinks(hrefs);
    var ms := Matching(hrefs);
    forall k | 0 <= k < |links|
      ensures Https <= links[k] && Contains(links[k], FileStreamMarker)
    {
      var h := ms[k];
      if !(Https <= h) {
        ContainsInSuffix(BaseUrl, h, FileStreamMarker);
      }
    }
  }

  /** The links of two parts of a page are the links of the first part
      followed by those of the second: page order is kept. */
  lemma {:induction false} PdfLinksKeepOrder(a: seq<string>, b: seq<string>)
    ensures PdfLinks(a + b) == PdfLinks(a) + PdfLinks(b)
    decreases |b|
  {
    if b == [] {
      assert a + b == a;
    } else {
      var init := b[..|b| - 1];
      PdfLinksKeepOrder(a, init);
      assert (a + b)[..|a + b| - 1] == a + init;
    }
  }

  /** One anchor yields one link when it points at a FileStream document and
      none otherwise; with PdfLinksKeepOrder this fixes the links of any page. */
  lemma PdfLinksOfOne(h: string)
    ensures PdfLinks([h]) == if Contains(h, FileStreamMarker) then [Absolute(h)] else []
  {
    assert [h][..0] == [];
  }

  /** scrapePage: walk the anchors and collect the FileStream links. The
      function prints each link and returns nothing; the collected list is the
      result here. */
  method ScrapePage(hrefs: seq<string>) returns (pdfLinks: seq<string>)
    ensures pdfLinks == PdfLinks(hrefs)
  {
    pdfLinks := [];
    var i := 0;
    while i < |hrefs|
      invariant 0 <= i <= |hrefs|
      invariant pdfLinks == PdfLinks(hrefs[..i])
    {
      var href := hrefs[i];
      assert hrefs[..i + 1][..i] == hrefs[..i];
      if Contains(href, FileStreamMarker) {
        var url := href;
        if Https <= url {
          pdfLinks := pdfLinks + [url];
        } else {
          url := BaseUrl + url;
          pdfLinks := pdfLinks + [url];
        }
      }
      i := i + 1;
    }
    assert hrefs[..i] == hrefs;
  }
}
