/** `process_attachments`: the attachment resolver. It scans a comment
    detail's `included` items of type "attachments" and, inside each, the
    item's `fileFormats`. Every truthy `fileUrl` marks the comment as having
    an attachment; only `.pdf`, `.docx` and `.doc` URLs are downloaded and
    decoded. The first non-empty extraction ends the scan of that item's
    formats only (the `break` leaves the inner loop), so a later attachment
    item that also yields text replaces the earlier text.
 */
module Attachments {
  import opened Payload
  import Cleaning
  import FileExt

  /** The I/O the resolver reaches, as oracles: `urlparse(url).path`, and
      the raw text the download followed by PyPDF2 (`pdfText`) or docx2txt
      (`docxText`) produces for a URL, "" when the download fails, the
      decoder raises, or the decoder is not installed. */
  datatype Env = Env(
    urlPath: string -> string,
    pdfText: string -> string,
    docxText: string -> string)

  /** `get_file_extension(url) in ['.pdf', '.docx', '.doc']` */
  predicate Downloadable(env: Env, url: string) {
    FileExt.Eligible(FileExt.FileExtension(env.urlPath(url)))
  }

  /** What `extract_text_from_pdf` or `extract_text_from_docx` returns for a
      downloaded URL: the decoder's text, cleaned. */
  function Extracted(env: Env, url: string): string {
    if FileExt.FileExtension(env.urlPath(url)) == ".pdf" then Cleaning.Cleaned(env.pdfText(url))
    else Cleaning.Cleaned(env.docxText(url))
  }

  /** The resolver's variables: `attachment_text`, `has_attachment`, and the
      URLs handed to `download_file` so far. */
  datatype Scan = Scan(text: string, hasAttachment: bool, downloads: seq<string>)

  const Initial: Scan := Scan("", false, [])

  /** The inner loop from format `j` on, starting in state `st`. */
  function ScanFormats(env: Env, fs: seq<FileFormat>, j: nat, st: Scan): Scan
    decreases |fs| - j
  {
    if j >= |fs| then st
    else if !Truthy(fs[j].fileUrl) then ScanFormats(env, fs, j + 1, st)
    else
      var url := fs[j].fileUrl.value;
      var seen := st.(hasAttachment := true);
      if !Downloadable(env, url) then ScanFormats(env, fs, j + 1, seen)
      else
        var fetched := seen.(downloads := seen.downloads + [url]);
        var t := Extracted(env, url);
        if t != "" then fetched.(text := t)
        else ScanFormats(env, fs, j + 1, fetched)
  }

  /** The outer loop from item `i` on, starting in state `st`. */
  function ScanItems(env: Env, items: seq<Included>, i: nat, st: Scan): Scan
    decreases |items| - i
  {
    if i >= |items| then st
    else
      var next := if items[i].IsAttachment() then ScanFormats(env, items[i].Formats(), 0, st) else st;
      ScanItems(env, items, i + 1, next)
  }

  /** What `process_attachments` returns (and downloads) for a detail payload;
      `None` stands for a missing or empty payload. */
  function Resolve(env: Env, details: Option<Detail>): Scan {
    if details.None? || details.value.Items() == [] then Initial
    else ScanItems(env, details.value.Items(), 0, Initial)
  }

  /** `process_attachments` */
  method ProcessAttachments(env: Env, details: Option<Detail>)
      returns (text: string, hasAttachment: bool, downloads: seq<string>)
    ensures Scan(text, hasAttachment, downloads) == Resolve(env, details)
  {
    text, hasAttachment, downloads := "", false, [];
    if details.None? {
      return;
    }
    var included := details.value.Items();
    if included == [] {
      return;
    }
    for i := 0 to |included|
      invariant ScanItems(env, included, i, Scan(text, hasAttachment, downloads)) == Resolve(env, details)
    {
      var item := included[i];
      if item.IsAttachment() {
        text, hasAttachment, downloads := ScanFileFormats(env, item.Formats(), text, hasAttachment, downloads);
      }
    }
  }

  /** The inner loop of `process_attachments` over one attachment item's
      `fileFormats`, continuing from the resolver's variables. */
  method ScanFileFormats(env: Env, formats: seq<FileFormat>, text0: string, hasAttachment0: bool,
                         downloads0: seq<string>)
      returns (text: string, hasAttachment: bool, downloads: seq<string>)
    ensures Scan(text, hasAttachment, downloads) == ScanFormats(env, formats, 0, Scan(text0, hasAttachment0, downloads0))
  {
    text, hasAttachment, downloads := text0, hasAttachment0, downloads0;
    var j := 0;
    while j < |formats|
      invariant 0 <= j <= |formats|
      invariant ScanFormats(env, formats, j, Scan(text, hasAttachment, downloads))
             == ScanFormats(env, formats, 0, Scan(text0, hasAttachment0, downloads0))
    {
      ghost var st := Scan(text, hasAttachment, downloads);
      var fileUrl := formats[j].fileUrl;
      if fileUrl.Some? && fileUrl.value != "" {
        var url := fileUrl.value;
        hasAttachment := true;
        var extension := FileExt.FileExtension(env.urlPath(url));
        if extension == ".pdf" || extension == ".docx" || extension == ".doc" {
          downloads := downloads + [url];
          var extracted: string;
          if extension == ".pdf" {
            extracted := Cleaning.CleanText(env.pdfText(url));
          } else {
            extracted := Cleaning.CleanText(env.docxText(url));
          }
          if extracted != "" {
            text := extracted;
            return;
          }
        }
      }
      assert ScanFormats(env, formats, j + 1, Scan(text, hasAttachment, downloads)) == ScanFormats(env, formats, j, st);
      j := j + 1;
    }
  }

  // ----- Reference definitions of what the scan finds -----

  /** Some attachment item has a format with a truthy `fileUrl`. */
  predicate HasFileUrl(items: seq<Included>) {
    exists i, k :: 0 <= i < |items| && items[i].IsAttachment()
      && 0 <= k < |items[i].Formats()| && Truthy(items[i].Formats()[k].fileUrl)
  }

  /** The text one format yields when it is downloaded, else "". */
  function FormatText(env: Env, f: FileFormat): string {
    if Truthy(f.fileUrl) && Downloadable(env, f.fileUrl.value) then Extracted(env, f.fileUrl.value) else ""
  }

  /** The first non-empty text among an item's formats. */
  function FirstText(env: Env, fs: seq<FileFormat>): string {
    if fs == [] then ""
    else if FormatText(env, fs[0]) != "" then FormatText(env, fs[0])
    else FirstText(env, fs[1..])
  }

  /** The text one included item contributes. */
  function ItemText(env: Env, item: Included): string {
    if item.IsAttachment() then FirstText(env, item.Formats()) else ""
  }

  /** The contribution of the last item that contributes any text. */
  function LastText(env: Env, items: seq<Included>): string {
    if items == [] then ""
    else if LastText(env, items[1..]) != "" then LastText(env, items[1..])
    else ItemText(env, items[0])
  }

  /** Every URL is non-empty and carries an eligible extension. */
  predicate AllDownloadable(env: Env, urls: seq<string>) {
    forall k :: 0 <= k < |urls| ==> urls[k] != "" && Downloadable(env, urls[k])
  }

  // ----- The inner loop -----

  lemma {:induction false} ScanFormatsHas(env: Env, fs: seq<FileFormat>, j: nat, st: Scan)
    ensures ScanFormats(env, fs, j, st).hasAttachment
        <==> st.hasAttachment || exists k :: j <= k < |fs| && Truthy(fs[k].fileUrl)
    decreases |fs| - j
  {
    if j < |fs| {
      var url := fs[j].fileUrl;
      if !Truthy(url) {
        ScanFormatsHas(env, fs, j + 1, st);
      } else {
        var seen := st.(hasAttachment := true);
        if !Downloadable(env, url.value) {
          ScanFormatsHas(env, fs, j + 1, seen);
        } else if Extracted(env, url.value) == "" {
          ScanFormatsHas(env, fs, j + 1, seen.(downloads := seen.downloads + [url.value]));
        }
      }
    }
  }

  lemma {:induction false} ScanFormatsText(env: Env, fs: seq<FileFormat>, j: nat, st: Scan)
    requires j <= |fs|
    ensures var t := FirstText(env, fs[j..]);
      ScanFormats(env, fs, j, st).text == if t != "" then t else st.text
    decreases |fs| - j
  {
    if j < |fs| {
      assert fs[j..][0] == fs[j] && fs[j..][1..] == fs[j + 1..];
      var url := fs[j].fileUrl;
      if !Truthy(url) {
        ScanFormatsText(env, fs, j + 1, st);
      } else {
        var seen := st.(hasAttachment := true);
        if !Downloadable(env, url.value) {
          ScanFormatsText(env, fs, j + 1, seen);
        } else if Extracted(env, url.value) == "" {
          ScanFormatsText(env, fs, j + 1, seen.(downloads := seen.downloads + [url.value]));
        }
      }
    }
  }

  /** The URL of one format when it is truthy and eligible for download. */
  function Head(env: Env, f: FileFormat): seq<string> {
    if Truthy(f.fileUrl) && Downloadable(env, f.fileUrl.value) then [f.fileUrl.value] else []
  }

  /** The truthy `.pdf`/`.docx`/`.doc` URLs among some formats, in order. */
  function EligibleUrls(env: Env, fs: seq<FileFormat>): seq<string> {
    if fs == [] then [] else Head(env, fs[0]) + EligibleUrls(env, fs[1..])
  }

  /** The first format from `j` on that yields text, or `|fs|` when none does. */
  function FirstHit(env: Env, fs: seq<FileFormat>, j: nat): (h: nat)
    requires j <= |fs|
    ensures j <= h <= |fs|
    decreases |fs| - j
  {
    if j == |fs| then j
    else if FormatText(env, fs[j]) != "" then j
    else FirstHit(env, fs, j + 1)
  }

  /** Where the inner loop stops scanning: just past the first format that
      yields text, or at the end. */
  function HitEnd(env: Env, fs: seq<FileFormat>, j: nat): (e: nat)
    requires j <= |fs|
    ensures j <= e <= |fs| && (j < |fs| ==> j < e)
  {
    var h := FirstHit(env, fs, j);
    if h < |fs| then h + 1 else |fs|
  }

  /** `FirstHit` is the first format that yields text. */
  lemma {:induction false} FirstHitIsFirst(env: Env, fs: seq<FileFormat>, j: nat)
    requires j <= |fs|
    ensures FirstHit(env, fs, j) < |fs| ==> FormatText(env, fs[FirstHit(env, fs, j)]) != ""
    ensures forall m :: j <= m < FirstHit(env, fs, j) ==> FormatText(env, fs[m]) == ""
    decreases |fs| - j
  {
    if j < |fs| && FormatText(env, fs[j]) == "" {
      var h := FirstHit(env, fs, j + 1);
      assert FirstHit(env, fs, j) == h;
      FirstHitIsFirst(env, fs, j + 1);
      forall m | j <= m < h ensures FormatText(env, fs[m]) == "" {
        if m > j {
          assert j + 1 <= m < h;
        }
      }
    }
  }

  /** The eligible URLs of a slice: its first format's, then the rest's. */
  lemma EligibleUrlsStep(env: Env, fs: seq<FileFormat>, j: nat, e: nat)
    requires j < e <= |fs|
    ensures EligibleUrls(env, fs[j..e]) == Head(env, fs[j]) + EligibleUrls(env, fs[j + 1..e])
  {
    assert fs[j..e][0] == fs[j] && fs[j..e][1..] == fs[j + 1..e];
  }

  /** A format that yields text is downloaded and ends the inner loop. */
  lemma ScanFormatsHit(env: Env, fs: seq<FileFormat>, j: nat, st: Scan)
    requires j < |fs| && FormatText(env, fs[j]) != ""
    ensures ScanFormats(env, fs, j, st).downloads == st.downloads + Head(env, fs[j])
  {
  }

  /** A format that yields no text records its eligible URL, if any, and
      the loop goes on with the next format. */
  lemma ScanFormatsMiss(env: Env, fs: seq<FileFormat>, j: nat, st: Scan)
    requires j < |fs| && FormatText(env, fs[j]) == ""
    ensures ScanFormats(env, fs, j, st).downloads
         == ScanFormats(env, fs, j + 1, Scan(st.text, st.hasAttachment || Truthy(fs[j].fileUrl),
                                             st.downloads + Head(env, fs[j]))).downloads
  {
    assert st.downloads + [] == st.downloads;
  }

  lemma Assoc(a: seq<string>, b: seq<string>, c: seq<string>)
    ensures a + b + c == a + (b + c)
  {
  }

  /** The inner loop downloads exactly the eligible URLs from format `j` up
      to and including the first format that yields text; no format after
      that one is downloaded. */
  lemma {:induction false} ScanFormatsDownloads(env: Env, fs: seq<FileFormat>, j: nat, st: Scan)
    requires j <= |fs|
    ensures ScanFormats(env, fs, j, st).downloads == st.downloads + EligibleUrls(env, fs[j..HitEnd(env, fs, j)])
    decreases |fs| - j
  {
    var h := FirstHit(env, fs, j);
    var e := HitEnd(env, fs, j);
    if j == |fs| {
      assert fs[j..e] == [];
      assert st.downloads + [] == st.downloads;
      assert ScanFormats(env, fs, j, st).downloads == st.downloads + EligibleUrls(env, fs[j..e]);
    } else {
      EligibleUrlsStep(env, fs, j, e);
      if FormatText(env, fs[j]) != "" {
        ScanFormatsHit(env, fs, j, st);
        assert fs[j + 1..e] == [];
        assert Head(env, fs[j]) + [] == Head(env, fs[j]);
        assert ScanFormats(env, fs, j, st).downloads == st.downloads + EligibleUrls(env, fs[j..e]);
      } else {
        var next := Scan(st.text, st.hasAttachment || Truthy(fs[j].fileUrl), st.downloads + Head(env, fs[j]));
        ScanFormatsMiss(env, fs, j, st);
        assert h == FirstHit(env, fs, j + 1) && e == HitEnd(env, fs, j + 1);
        ScanFormatsDownloads(env, fs, j + 1, next);
        var rest := EligibleUrls(env, fs[j + 1..e]);
        assert ScanFormats(env, fs, j + 1, next).downloads == next.downloads + rest;
        Assoc(st.downloads, Head(env, fs[j]), rest);
        assert ScanFormats(env, fs, j, st).downloads == st.downloads + EligibleUrls(env, fs[j..e]);
      }
    }
  }

  /** Recording one more eligible URL keeps every recorded URL eligible. */
  lemma DownloadOne(env: Env, urls: seq<string>, u: string)
    requires AllDownloadable(env, urls) && u != "" && Downloadable(env, u)
    ensures AllDownloadable(env, urls + [u])
  {
    assert forall k :: 0 <= k < |urls| ==> (urls + [u])[k] == urls[k];
  }

  lemma {:induction false} ScanFormatsKeeps(env: Env, fs: seq<FileFormat>, j: nat, st: Scan)
    requires AllDownloadable(env, st.downloads)
    requires st.text != "" ==> st.hasAttachment
    ensures var r := ScanFormats(env, fs, j, st);
      AllDownloadable(env, r.downloads) && (r.text != "" ==> r.hasAttachment)
    decreases |fs| - j
  {
    if j < |fs| {
      var url := fs[j].fileUrl;
      if !Truthy(url) {
        ScanFormatsKeeps(env, fs, j + 1, st);
      } else if !Downloadable(env, url.value) {
        ScanFormatsKeeps(env, fs, j + 1, st.(hasAttachment := true));
      } else {
        DownloadOne(env, st.downloads, url.value);
        if Extracted(env, url.value) == "" {
          ScanFormatsKeeps(env, fs, j + 1, Scan(st.text, true, st.downloads + [url.value]));
        }
      }
    }
  }

  // ----- The outer loop -----

  lemma {:induction false} ScanItemsHas(env: Env, items: seq<Included>, i: nat, st: Scan)
    requires i <= |items|
    ensures ScanItems(env, items, i, st).hasAttachment
        <==> st.hasAttachment || HasFileUrl(items[i..])
    decreases |items| - i
  {
    if i < |items| {
      var item := items[i];
      var next := if item.IsAttachment() then ScanFormats(env, item.Formats(), 0, st) else st;
      ScanItemsHas(env, items, i + 1, next);
      ScanFormatsHas(env, item.Formats(), 0, st);
      assert items[i..][0] == item;
      assert forall a :: 1 <= a < |items[i..]| ==> items[i..][a] == items[i + 1..][a - 1];
      if HasFileUrl(items[i + 1..]) {
        var a, k :| 0 <= a < |items[i + 1..]| && items[i + 1..][a].IsAttachment()
          && 0 <= k < |items[i + 1..][a].Formats()| && Truthy(items[i + 1..][a].Formats()[k].fileUrl);
        assert items[i..][a + 1] == items[i + 1..][a];
      }
      if item.IsAttachment() && exists k :: 0 <= k < |item.Formats()| && Truthy(item.Formats()[k].fileUrl) {
        var k :| 0 <= k < |item.Formats()| && Truthy(item.Formats()[k].fileUrl);
        assert items[i..][0].Formats()[k] == item.Formats()[k];
      }
    }
  }

  lemma {:induction false} ScanItemsText(env: Env, items: seq<Included>, i: nat, st: Scan)
    requires i <= |items|
    ensures var t := LastText(env, items[i..]);
      ScanItems(env, items, i, st).text == if t != "" then t else st.text
    decreases |items| - i
  {
    if i < |items| {
      var item := items[i];
      var next := if item.IsAttachment() then ScanFormats(env, item.Formats(), 0, st) else st;
      ScanItemsText(env, items, i + 1, next);
      ScanFormatsText(env, item.Formats(), 0, st);
      assert item.Formats()[0..] == item.Formats();
      assert items[i..][0] == item && items[i..][1..] == items[i + 1..];
    }
  }

  lemma {:induction false} ScanItemsKeeps(env: Env, items: seq<Included>, i: nat, st: Scan)
    requires AllDownloadable(env, st.downloads)
    requires st.text != "" ==> st.hasAttachment
    ensures var r := ScanItems(env, items, i, st);
      AllDownloadable(env, r.downloads) && (r.text != "" ==> r.hasAttachment)
    decreases |items| - i
  {
    if i < |items| {
      var item := items[i];
      ScanFormatsKeeps(env, item.Formats(), 0, st);
      var next := if item.IsAttachment() then ScanFormats(env, item.Formats(), 0, st) else st;
      ScanItemsKeeps(env, items, i + 1, next);
    }
  }

  // ----- What process_attachments returns -----

  /** `has_attachment` is true exactly when some attachment item has a format
      with a truthy `fileUrl`, whether or not anything was extracted. */
  lemma ResolveHasAttachment(env: Env, details: Option<Detail>)
    ensures Resolve(env, details).hasAttachment <==> details.Some? && HasFileUrl(details.value.Items())
  {
    if details.Some? {
      var items := details.value.Items();
      assert items[0..] == items;
      if items != [] {
        ScanItemsHas(env, items, 0, Initial);
      }
    }
  }

  /** The attachment text is the text of the LAST attachment item that yields
      any, each item contributing the first non-empty extraction among its
      formats; "" when the payload is missing or yields none. */
  lemma ResolveText(env: Env, details: Option<Detail>)
    ensures Resolve(env, details).text == if details.None? then "" else LastText(env, details.value.Items())
  {
    if details.Some? {
      var items := details.value.Items();
      assert items[0..] == items;
      if items != [] {
        ScanItemsText(env, items, 0, Initial);
      }
    }
  }

  /** Only non-empty `.pdf`/`.docx`/`.doc` URLs reach `download_file`, and
      text is only ever found when an attachment is present. */
  lemma ResolveDownloadsAndText(env: Env, details: Option<Detail>)
    ensures AllDownloadable(env, Resolve(env, details).downloads)
    ensures Resolve(env, details).text != "" ==> Resolve(env, details).hasAttachment
  {
    if details.Some? && details.value.Items() != [] {
      ScanItemsKeeps(env, details.value.Items(), 0, Initial);
    }
  }

  /** The last non-empty contribution wins: a non-empty text is one item's
      contribution, and no later item contributes any. */
  lemma {:induction false} LastTextIsLast(env: Env, items: seq<Included>)
    ensures var t := LastText(env, items);
      (t == "" <==> forall a :: 0 <= a < |items| ==> ItemText(env, items[a]) == "")
      && (t != "" ==>
            exists a :: 0 <= a < |items| && t == ItemText(env, items[a])
              && forall b :: a < b < |items| ==> ItemText(env, items[b]) == "")
  {
    if items != [] {
      var rest := items[1..];
      LastTextIsLast(env, rest);
      assert forall a :: 1 <= a < |items| ==> items[a] == rest[a - 1];
      if LastText(env, rest) != "" {
        var a :| 0 <= a < |rest| && LastText(env, rest) == ItemText(env, rest[a])
          && forall b :: a < b < |rest| ==> ItemText(env, rest[b]) == "";
        assert items[a + 1] == rest[a];
      }
    }
  }

  /** A format whose URL is downloaded and yields text sets the text and
      ends the item's scan. */
  lemma FormatYieldsText(env: Env, u: string, rest: seq<FileFormat>, st: Scan)
    requires u != "" && Downloadable(env, u) && Extracted(env, u) != ""
    ensures ScanFormats(env, [FileFormat(Some(u))] + rest, 0, st)
         == Scan(Extracted(env, u), true, st.downloads + [u])
  {
  }

  /** The code's order, not first-success-wins: when two attachment items
      each yield text, both are downloaded and the second one's text is
      returned. */
  lemma LaterAttachmentWins(env: Env, attrs: Option<Attributes>, u1: string, u2: string)
    requires u1 != "" && u2 != "" && Downloadable(env, u1) && Downloadable(env, u2)
    requires Extracted(env, u1) != "" && Extracted(env, u2) != ""
    ensures var i1 := Included(Some("attachments"), Some([FileFormat(Some(u1))]));
      var i2 := Included(Some("attachments"), Some([FileFormat(Some(u2))]));
      Resolve(env, Some(Detail(attrs, Some([i1, i2])))) == Scan(Extracted(env, u2), true, [u1, u2])
  {
    var i1 := Included(Some("attachments"), Some([FileFormat(Some(u1))]));
    var i2 := Included(Some("attachments"), Some([FileFormat(Some(u2))]));
    var s1 := Scan(Extracted(env, u1), true, [u1]);
    var s2 := Scan(Extracted(env, u2), true, [u1, u2]);
    var items := [i1, i2];
    assert i1.IsAttachment() && i2.IsAttachment();
    assert i1.Formats() == [FileFormat(Some(u1))] + [];
    assert i2.Formats() == [FileFormat(Some(u2))] + [];
    FormatYieldsText(env, u1, [], Initial);
    FormatYieldsText(env, u2, [], s1);
    assert ScanFormats(env, items[0].Formats(), 0, Initial) == s1;
    assert ScanFormats(env, items[1].Formats(), 0, s1) == s2;
    assert ScanItems(env, items, 2, s2) == s2;
    assert ScanItems(env, items, 1, s1) == ScanItems(env, items, 2, s2);
    assert ScanItems(env, items, 0, Initial) == ScanItems(env, items, 1, s1);
  }

  /** Within one item the first non-empty extraction stops the scan: later
      formats of that item are not downloaded. */
  lemma FirstFormatWins(env: Env, attrs: Option<Attributes>, u1: string, u2: string)
    requires u1 != "" && u2 != "" && Downloadable(env, u1) && Downloadable(env, u2)
    requires Extracted(env, u1) != ""
    ensures var item := Included(Some("attachments"), Some([FileFormat(Some(u1)), FileFormat(Some(u2))]));
      Resolve(env, Some(Detail(attrs, Some([item])))) == Scan(Extracted(env, u1), true, [u1])
  {
    var item := Included(Some("attachments"), Some([FileFormat(Some(u1)), FileFormat(Some(u2))]));
    var s1 := Scan(Extracted(env, u1), true, [u1]);
    FormatYieldsText(env, u1, [FileFormat(Some(u2))], Initial);
    assert item.Formats() == [FileFormat(Some(u1))] + [FileFormat(Some(u2))];
    assert ScanItems(env, [item], 1, s1) == s1;
    assert ScanItems(env, [item], 0, Initial) == s1;
  }
}
