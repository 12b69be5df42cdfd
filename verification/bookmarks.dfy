/**
  The CSV-to-bookmarks serialiser: `to_url` normalises a link, and
  `bookmarks_html` writes a Netscape bookmark file with one entry per
  distinct non-empty (url, title) pair, in the order the pairs first appear.
  `bookmarks_html` reads the time from `time.time()`; here it is the
  parameter `now` (whole seconds).
 */
module Bookmarks {
  import opened Optional
  import opened Decimal
  import opened Trimming
  import opened HtmlEscape
  import opened Sequences

  /** One CSV row: the raw url and title cells, either of which may be missing. */
  datatype Row = Row(url: Option<string>, title: Option<string>)

  /** Python's `str.isspace`, the characters `str.strip()` removes. */
  predicate IsPySpace(c: char) {
    || ('\t' <= c <= '\r') || ('\U{001C}' <= c <= '\U{001F}') || c == ' '
    || c == '\U{0085}' || c == '\U{00A0}' || c == '\U{1680}'
    || ('\U{2000}' <= c <= '\U{200A}')
    || c == '\U{2028}' || c == '\U{2029}' || c == '\U{202F}' || c == '\U{205F}' || c == '\U{3000}'
  }

  /** `(s or "").strip()`. */
  function PyStrip(s: Option<string>): (r: string)
    ensures Trimmed(r, IsPySpace)
  {
    Trim(s.GetOr(""), IsPySpace)
  }

  /** The link starts with one of the schemes `to_url` accepts as given. */
  predicate HasScheme(s: string) {
    "http://" <= s || "https://" <= s || "ftp://" <= s || "file://" <= s || "mailto:" <= s
  }

  /**
    `to_url`: strip the text; leave it alone if empty or if it already has a
    scheme; otherwise put `https://` in front.
   */
  function ToUrl(s: Option<string>): (r: string)
    ensures r == "" <==> PyStrip(s) == ""
    ensures r == "" || HasScheme(r)
    ensures Trimmed(r, IsPySpace)
    ensures HasScheme(PyStrip(s)) ==> r == PyStrip(s)
    ensures PyStrip(s) != "" && !HasScheme(PyStrip(s)) ==> r == "https://" + PyStrip(s)
  {
    var t := PyStrip(s);
    if t != "" && !HasScheme(t) then
      WithHttps(t);
      "https://" + t
    else t
  }

  /** Putting `https://` in front of stripped non-empty text gives a stripped link with a scheme. */
  lemma WithHttps(t: string)
    requires t != "" && Trimmed(t, IsPySpace)
    ensures HasScheme("https://" + t) && Trimmed("https://" + t, IsPySpace)
  {
    var r := "https://" + t;
    assert r[..8] == "https://";
    assert r[0] == 'h';
    assert r[|r| - 1] == t[|t| - 1];
  }

  /** Missing, empty and all-space cells give the empty url. */
  lemma ToUrlOfBlank(s: Option<string>)
    requires s.Some? ==> AllSpace(s.value, IsPySpace)
    ensures ToUrl(s) == ""
  {
    TrimEmptyIff(s.GetOr(""), IsPySpace);
  }

  /** Normalising a normalised url changes nothing. */
  lemma ToUrlIdempotent(s: Option<string>)
    ensures ToUrl(Some(ToUrl(s))) == ToUrl(s)
  {
    TrimOfTrimmed(ToUrl(s), IsPySpace);
  }

  /** A row's url and title as the serialiser compares them. */
  function Normalize(row: Row): (string, string) {
    (ToUrl(row.url), PyStrip(row.title))
  }

  /** A pair that gets an entry: neither url nor title is empty. */
  predicate IsEntry(pair: (string, string)) {
    pair.0 != "" && pair.1 != ""
  }

  /** The normalised pairs of the rows that get an entry, repeats included, in row order. */
  function ValidPairs(rows: seq<Row>): seq<(string, string)> {
    FilterMap(rows, Normalize, IsEntry)
  }

  /**
    A pair is among the valid pairs exactly when some row normalises to it
    and neither its url nor its title is empty: rows with an empty url or
    title contribute nothing.
   */
  lemma ValidPairsMembers(rows: seq<Row>, pair: (string, string))
    ensures pair in ValidPairs(rows) <==>
              IsEntry(pair) && exists i :: 0 <= i < |rows| && Normalize(rows[i]) == pair
  {
    FilterMapMembers(rows, Normalize, IsEntry, pair);
  }

  /** The pairs that get an entry, each once, in the order of their first appearance. */
  function Entries(rows: seq<Row>): seq<(string, string)> {
    Dedup(ValidPairs(rows))
  }

  /**
    A pair gets an entry exactly when some row normalises to it and neither
    its url nor its title is empty; `Dedup` keeps each such pair once.
   */
  lemma EntriesMembers(rows: seq<Row>, pair: (string, string))
    ensures pair in Entries(rows) <==>
              IsEntry(pair) && exists i :: 0 <= i < |rows| && Normalize(rows[i]) == pair
    ensures NoDuplicates(Entries(rows))
  {
    var v := ValidPairs(rows);
    DedupContents(v);
    ValidPairsMembers(rows, pair);
    if pair in Dedup(v) {
      var i :| 0 <= i < |Dedup(v)| && Dedup(v)[i] == pair;
      assert pair in v;
    }
    if pair in v {
      var i :| 0 <= i < |v| && v[i] == pair;
      assert pair in Dedup(v);
    }
  }

  /** The folder name `bookmarks_html` uses when it is given none. */
  const DefaultFolderName: string := "Imported from CSV"

  const FolderStart: string := "<DT><H3 ADD_DATE=\""
  const FolderEnd: string := "</H3>"

  /** What separates the folder's creation stamp from its name: the modification stamp. */
  function FolderMid(now: nat): string {
    "\" LAST_MODIFIED=\"" + IntToString(now) + "\">"
  }

  /** The folder line: both stamps are `now`, and the name is escaped. */
  function FolderLine(folderName: string, now: nat): string {
    FolderStart + (IntToString(now) + (FolderMid(now) + (Escape(folderName) + FolderEnd)))
  }

  /** The seven lines every bookmark file starts with; the sixth opens the folder. */
  function Header(folderName: string, now: nat): (lines: seq<string>)
    ensures |lines| == 7
  {
    [ "<!DOCTYPE NETSCAPE-Bookmark-file-1>",
      "<META HTTP-EQUIV=\"Content-Type\" CONTENT=\"text/html; charset=UTF-8\">",
      "<TITLE>Bookmarks</TITLE>",
      "<H1>Bookmarks</H1>",
      "<DL><p>",
      FolderLine(folderName, now),
      "<DL><p>" ]
  }

  /** The two lines every bookmark file ends with. */
  const Footer: seq<string> := ["</DL><p>", "</DL><p>"]

  const EntryStart: string := "<DT><A HREF=\""
  const EntryDate: string := "\" ADD_DATE=\""
  const EntryTagEnd: string := "\">"
  const EntryEnd: string := "</A>"

  /** What separates an entry's url from its title: the closing quote and the `ADD_DATE` stamp. */
  function EntryMid(now: nat): string {
    EntryDate + IntToString(now) + EntryTagEnd
  }

  /** The entry line of one bookmark: escaped url and title, stamped with `now`. */
  function EntryLine(pair: (string, string), now: nat): string {
    EntryStart + (Escape(pair.0) + (EntryMid(now) + (Escape(pair.1) + EntryEnd)))
  }

  function EntryLines(entries: seq<(string, string)>, now: nat): (lines: seq<string>)
    ensures |lines| == |entries|
    ensures forall k :: 0 <= k < |entries| ==> lines[k] == EntryLine(entries[k], now)
  {
    seq(|entries|, k requires 0 <= k < |entries| => EntryLine(entries[k], now))
  }

  /** The position of the first `c` in `s`, or `|s|` if there is none. */
  function Find(s: string, c: char): (i: nat)
    ensures i <= |s|
    ensures i < |s| ==> s[i] == c
    ensures forall k :: 0 <= k < i ==> s[k] != c
    decreases |s|
  {
    if |s| == 0 || s[0] == c then 0 else 1 + Find(s[1..], c)
  }

  /**
    Splits a line framed as `start`, a url up to the next quote, `mid`, a
    title up to the next `<`, and `end` into its raw url and title.
    Anything not framed that way is rejected.
   */
  function ParseFramed(line: string, start: string, mid: string, end: string): Option<(string, string)> {
    if !(start <= line) then None
    else
      var rest := line[|start|..];
      var j := Find(rest, '"');
      if !(mid <= rest[j..]) then None
      else
        var tail := rest[j + |mid|..];
        var k := Find(tail, '<');
        if tail[k..] != end then None
        else Some((rest[..j], tail[..k]))
  }

  /**
    An entry line read back: the frame is the entry markup stamped `now`,
    and the url and title inside it are unescaped.
   */
  function ParseEntryLine(line: string, now: nat): Option<(string, string)> {
    match ParseFramed(line, EntryStart, EntryMid(now), EntryEnd)
    case None => None
    case Some((u, t)) => Some((Unescape(u), Unescape(t)))
  }

  /** The first `c` in `a + b` is the one `b` starts with, when `a` holds none. */
  lemma FindPastPrefix(a: string, b: string, c: char)
    requires forall k :: 0 <= k < |a| ==> a[k] != c
    requires |b| > 0 && b[0] == c
    ensures Find(a + b, c) == |a|
  {
    assert (a + b)[|a|] == c;
    assert forall k :: 0 <= k < |a| ==> (a + b)[k] == a[k];
  }

  /**
    A framed line whose url holds no quote and whose title holds no `<`
    splits back into that url and title, provided `mid` starts with
    the quote and `end` with the `<` that close them.
   */
  lemma ParseFramedRoundTrip(start: string, u: string, mid: string, t: string, end: string)
    requires forall k :: 0 <= k < |u| ==> u[k] != '"'
    requires forall k :: 0 <= k < |t| ==> t[k] != '<'
    requires |mid| > 0 && mid[0] == '"' && |end| > 0 && end[0] == '<'
    ensures ParseFramed(start + (u + (mid + (t + end))), start, mid, end) == Some((u, t))
  {
    var line := start + (u + (mid + (t + end)));
    var rest := u + (mid + (t + end));
    assert line[..|start|] == start && line[|start|..] == rest;
    FindPastPrefix(u, mid + (t + end), '"');
    assert rest[..|u|] == u;
    assert rest[|u|..] == mid + (t + end);
    assert (mid + (t + end))[..|mid|] == mid;
    var tail := t + end;
    assert rest[|u| + |mid|..] == tail;
    FindPastPrefix(t, end, '<');
    assert tail[..|t|] == t && tail[|t|..] == end;
  }

  /**
    Every entry line reads back as the pair it was written from: escaping
    leaves no quote in the url and no `<` in the title, so neither can end
    early.
   */
  lemma ParseEntryLineRoundTrip(pair: (string, string), now: nat)
    ensures ParseEntryLine(EntryLine(pair, now), now) == Some(pair)
  {
    var u := Escape(pair.0);
    var t := Escape(pair.1);
    var mid := EntryMid(now);
    assert forall k :: 0 <= k < |u| ==> u[k] != '"';
    assert forall k :: 0 <= k < |t| ==> t[k] != '<';
    assert mid[0] == '"' && EntryEnd[0] == '<';
    ParseFramedRoundTrip(EntryStart, u, mid, t, EntryEnd);
    UnescapeEscape(pair.0);
    UnescapeEscape(pair.1);
  }

  /**
    The entry lines read back, in order, as the pairs they were written
    from; in the file these are the distinct valid pairs in the order they
    first appear.
   */
  lemma EntryLinesReadBack(entries: seq<(string, string)>, now: nat)
    ensures forall k :: 0 <= k < |entries| ==> ParseEntryLine(EntryLines(entries, now)[k], now) == Some(entries[k])
  {
    forall k | 0 <= k < |entries|
      ensures ParseEntryLine(EntryLines(entries, now)[k], now) == Some(entries[k])
    {
      ParseEntryLineRoundTrip(entries[k], now);
    }
  }

  /**
    The folder line read back: the frame is the folder markup whose second
    stamp is `now`, the first stamp must be `now` too, and the name inside
    is unescaped.
   */
  function ParseFolderLine(line: string, now: nat): Option<string> {
    match ParseFramed(line, FolderStart, FolderMid(now), FolderEnd)
    case None => None
    case Some((stamp, name)) => if stamp == IntToString(now) then Some(Unescape(name)) else None
  }

  /**
    The header's folder line reads back as the folder name it was written
    for: the stamp is digits, so holds no quote, and the escaped name holds
    no `<`.
   */
  lemma FolderLineRoundTrip(folderName: string, now: nat)
    ensures ParseFolderLine(Header(folderName, now)[5], now) == Some(folderName)
  {
    var u := IntToString(now);
    var t := Escape(folderName);
    var mid := FolderMid(now);
    assert forall k :: 0 <= k < |u| ==> u[k] != '"';
    assert forall k :: 0 <= k < |t| ==> t[k] != '<';
    assert mid[0] == '"' && FolderEnd[0] == '<';
    ParseFramedRoundTrip(FolderStart, u, mid, t, FolderEnd);
    UnescapeEscape(folderName);
  }

  /**
    `bookmarks_html` up to the final join: header, one entry line per
    distinct valid pair (the `seen` loop), footer.
   */
  method BookmarkLines(rows: seq<Row>, folderName: string, now: nat) returns (lines: seq<string>)
    ensures lines == Header(folderName, now) + EntryLines(Entries(rows), now) + Footer
    ensures |lines| == 9 + |Elements(ValidPairs(rows))|
  {
    var entries := CollectDistinct(rows, Normalize, IsEntry, pair => EntryLine(pair, now));
    assert entries == EntryLines(Entries(rows), now);
    lines := Header(folderName, now) + entries + Footer;
    DedupSize(ValidPairs(rows));
  }

  /** Python's `"\n".join(lines)`. */
  function JoinLines(lines: seq<string>): string
    decreases |lines|
  {
    if |lines| == 0 then ""
    else if |lines| == 1 then lines[0]
    else lines[0] + "\n" + JoinLines(lines[1..])
  }

  /** Joining two non-empty runs of lines puts one line break between them. */
  lemma {:induction false} JoinAppend(a: seq<string>, b: seq<string>)
    requires |a| > 0 && |b| > 0
    ensures JoinLines(a + b) == JoinLines(a) + "\n" + JoinLines(b)
    decreases |a|
  {
    if |a| > 1 {
      assert (a + b)[1..] == a[1..] + b;
      JoinAppend(a[1..], b);
    } else {
      assert (a + b)[1..] == b;
    }
  }

  /**
    `bookmarks_html`: the bookmark file as one string. It starts with the
    header lines and ends with the two closing list tags.
   */
  method BookmarksHtml(rows: seq<Row>, now: nat, folderName: string := DefaultFolderName) returns (text: string)
    ensures text == JoinLines(Header(folderName, now) + EntryLines(Entries(rows), now) + Footer)
    ensures JoinLines(Header(folderName, now)) + "\n" <= text
    ensures |text| >= 17 && text[|text| - 17..] == "</DL><p>\n</DL><p>"
  {
    var lines := BookmarkLines(rows, folderName, now);
    text := JoinLines(lines);
    var body := EntryLines(Entries(rows), now) + Footer;
    assert lines == Header(folderName, now) + body;
    JoinAppend(Header(folderName, now), body);
    var middle := Header(folderName, now) + EntryLines(Entries(rows), now);
    assert lines == middle + Footer;
    JoinAppend(middle, Footer);
    FooterText();
  }

  lemma FooterText()
    ensures JoinLines(Footer) == "</DL><p>\n</DL><p>"
  {
    assert Footer[1..] == ["</DL><p>"];
  }
}
