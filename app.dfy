/**
 * fetch_data (app.py): the URL checks, then fetch, parse, display and save,
 * with the message boxes the user sees. The HTTP request is not modelled: its
 * outcome is an input, either the error it raised or the three `findall`
 * results of the page it returned. The Tkinter window, the entry holding the
 * URL and the message boxes themselves are left out; the message box shown is
 * the method's result.
 */
module App {
  import opened Width
  import opened Text
  import opened Parse
  import opened Store
  import opened Render

  /** The address the URL entry holds when the window opens. */
  const DefaultUrl: string := "https://ai.ncut.edu.tw/p/412-1063-2382.php"

  /** The three ways the URL checks of fetch_data end. */
  datatype UrlVerdict = EmptyUrl | MalformedUrl | UrlAccepted

  /** What `scrape_contacts(url)` produced: the text of the exception
      `requests` raised, or the page, reduced to the names, extensions and
      addresses the three patterns find in it, in document order. */
  datatype Response =
    | RequestFailed(reason: string)
    | Page(names: seq<string>, exts: seq<string>, emails: seq<string>)

  /** The message box fetch_data ends with, if any. */
  datatype Dialog =
    | NoDialog
    | ShowWarning(title: string, message: string)
    | ShowError(title: string, message: string)

  /** fetch_data's checks: an empty URL first; then the URL must contain both
      "http" and "://", anywhere and in any order. Nothing else is checked. */
  function CheckUrl(url: string): (v: UrlVerdict)
    ensures v == EmptyUrl <==> url == []
    ensures v == UrlAccepted <==> url != [] && Occurs(url, "http") && Occurs(url, "://")
  {
    if url == [] then EmptyUrl
    else if !Contains(url, "http") || !Contains(url, "://") then MalformedUrl
    else UrlAccepted
  }

  /** Every address written with an http or https scheme passes. */
  lemma HttpSchemesAccepted(rest: string)
    ensures CheckUrl("http://" + rest) == UrlAccepted
    ensures CheckUrl("https://" + rest) == UrlAccepted
  {
    var u, v := "http://" + rest, "https://" + rest;
    assert OccursAt(u, "http", 0) && OccursAt(u, "://", 4);
    assert OccursAt(v, "http", 0) && OccursAt(v, "://", 5);
  }

  /** The address the window opens with passes. */
  lemma DefaultUrlAccepted()
    ensures CheckUrl(DefaultUrl) == UrlAccepted
  {
    var u := DefaultUrl;
    assert u[0] == 'h' && u[1] == 't' && u[2] == 't' && u[3] == 'p';
    assert u[5] == ':' && u[6] == '/' && u[7] == '/';
    assert u[0..4] == "http" && u[5..8] == "://";
    assert OccursAt(u, "http", 0) && OccursAt(u, "://", 5);
  }

  /** The check is coarse: an odd scheme, or the two parts in the wrong
      order, still pass. */
  lemma UrlExamplesAccepted()
    ensures CheckUrl("httpx://a") == UrlAccepted
    ensures CheckUrl("://http") == UrlAccepted
  {
    assert OccursAt("httpx://a", "http", 0) && OccursAt("httpx://a", "://", 5);
    assert OccursAt("://http", "http", 3) && OccursAt("://http", "://", 0);
  }

  /** A text in which some character of `sub` never appears does not contain
      `sub`. */
  lemma MissingCharNotOccurs(s: string, sub: string, k: int)
    requires 0 <= k < |sub|
    requires forall j :: 0 <= j < |s| ==> s[j] != sub[k]
    ensures !Occurs(s, sub)
  {
    forall i ensures !OccursAt(s, sub, i) {
      if 0 <= i <= |s| - |sub| {
        assert s[i..i + |sub|][k] == s[i + k];
      }
    }
  }

  /** An empty URL is the one case warned about; a URL lacking either part is
      refused. */
  lemma UrlExamplesRejected()
    ensures CheckUrl("") == EmptyUrl
    ensures CheckUrl("ftp://foo") == MalformedUrl
    ensures CheckUrl("http:/x") == MalformedUrl
  {
    MissingCharNotOccurs("ftp://foo", "http", 0);
    var u := "http:/x";
    forall i ensures !OccursAt(u, "://", i) {
      if 0 <= i <= |u| - 3 {
        assert u[i..i + 3][0] == u[i] && u[i..i + 3][2] == u[i + 2];
      }
    }
  }

  /** fetch_data. A rejected URL or a failed request leaves the text widget and
      the table as they were; otherwise the widget shows the parsed records and
      the table has them saved. */
  method FetchData(url: string, response: Response, isWide: WideTable, output: OutputText, store: ContactStore)
    returns (dialog: Dialog)
    requires store.Valid() && store.hasTable
    modifies output, store
    ensures store.Valid() && store.hasTable
    ensures CheckUrl(url) == EmptyUrl ==> dialog == ShowWarning("警告", "請輸入 URL！")
    ensures CheckUrl(url) == MalformedUrl ==> dialog == ShowError("錯誤", "網址格式不正確！")
    ensures CheckUrl(url) == UrlAccepted && response.RequestFailed? ==>
      dialog == ShowError("錯誤", "無法抓取資料：\n" + response.reason)
    ensures CheckUrl(url) != UrlAccepted || response.RequestFailed? ==>
      output.lines == old(output.lines) && store.rows == old(store.rows)
    ensures CheckUrl(url) == UrlAccepted && response.Page? ==>
      var results := ParsedContacts(response.names, response.exts, response.emails);
      && dialog == NoDialog
      && output.lines == Rendered(isWide, results)
      && store.rows == SaveAll(old(store.rows), results)
  {
    if url == [] {
      return ShowWarning("警告", "請輸入 URL！");
    }
    if !Contains(url, "http") || !Contains(url, "://") {
      return ShowError("錯誤", "網址格式不正確！");
    }
    match response
    case RequestFailed(reason) =>
      dialog := ShowError("錯誤", "無法抓取資料：\n" + reason);
    case Page(names, exts, emails) =>
      var results := ParseContacts(names, exts, emails);
      DisplayContacts(isWide, results, output);
      store.SaveToDatabase(results);
      dialog := NoDialog;
  }

  /** Fetching the same page twice leaves the widget and the table as fetching
      it once: the second fetch adds no row, the first one row per new address. */
  method FetchTwice(url: string, page: Response, isWide: WideTable, output: OutputText, store: ContactStore)
    requires store.Valid() && store.hasTable
    requires CheckUrl(url) == UrlAccepted && page.Page?
    modifies output, store
    ensures store.Valid() && store.hasTable
    ensures var results := ParsedContacts(page.names, page.exts, page.emails);
      && output.lines == Rendered(isWide, results)
      && store.rows == SaveAll(old(store.rows), results)
      && |store.rows| == |old(store.rows)| + |Emails(results) - Emails(old(store.rows))|
  {
    var results := ParsedContacts(page.names, page.exts, page.emails);
    var first := FetchData(url, page, isWide, output, store);
    var shown, saved := output.lines, store.rows;
    var second := FetchData(url, page, isWide, output, store);
    SaveAllIdempotent(old(store.rows), results);
    SaveAllCount(old(store.rows), results);
    assert output.lines == shown && store.rows == saved;
  }
}
