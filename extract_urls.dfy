/** Stage one, `extract_urls.py`: turn the anchors of a table-of-contents page
    into manifest records, give repeated file names a counter suffix and build
    the manifest payload.

    The HTML parser is not modelled: the input is the sequence of anchors that
    carry an `href` attribute, each with the attribute value and the element's
    `text_content()`. Python's `str.isalnum` is left abstract as the parameter
    `isAlnum`. */
module ExtractUrls {
  import opened Strings
  import opened Records

  /** An `<a href=...>` element: its `href` value and its text content. */
  datatype Anchor = Anchor(href: string, text: string)

  /** `a` is `b` with some characters left out, the rest in order. */
  predicate IsSubsequence(a: string, b: string)
    decreases |b|
  {
    a == [] ||
    (b != [] && ((a[0] == b[0] && IsSubsequence(a[1..], b[1..])) || IsSubsequence(a, b[1..])))
  }

  lemma {:induction false} PrefixOfSubsequence(p: string, a: string, b: string)
    requires p <= a && IsSubsequence(a, b)
    ensures IsSubsequence(p, b)
    decreases |b|
  {
    if p != [] {
      if a[0] == b[0] && IsSubsequence(a[1..], b[1..]) {
        PrefixOfSubsequence(p[1..], a[1..], b[1..]);
      } else {
        PrefixOfSubsequence(p, a, b[1..]);
      }
    }
  }

  /** The characters `safe_title` keeps: alphanumerics, space, `-`, `_`, `.`. */
  predicate SafeChar(isAlnum: char -> bool, c: char) {
    isAlnum(c) || c == ' ' || c == '-' || c == '_' || c == '.'
  }

  /** The generator expression of `safe_title`: the safe characters of `s`,
      every one of them, in order. */
  function KeepSafe(isAlnum: char -> bool, s: string): (r: string)
    ensures IsSubsequence(r, s)
    ensures forall i :: 0 <= i < |r| ==> SafeChar(isAlnum, r[i])
    ensures forall c :: SafeChar(isAlnum, c) ==> multiset(r)[c] == multiset(s)[c]
    ensures (forall i :: 0 <= i < |s| ==> SafeChar(isAlnum, s[i])) ==> r == s
  {
    if s == [] then []
    else
      var rest := KeepSafe(isAlnum, s[1..]);
      assert s == [s[0]] + s[1..];
      assert multiset(s) == multiset{s[0]} + multiset(s[1..]);
      if SafeChar(isAlnum, s[0]) then
        assert ([s[0]] + rest)[1..] == rest;
        assert multiset([s[0]] + rest) == multiset{s[0]} + multiset(rest);
        [s[0]] + rest
      else
        rest
  }

  /** `safe_title(title)`: the safe characters of the title, in order, with
      trailing whitespace removed. */
  function SafeTitle(isAlnum: char -> bool, title: string): (r: string)
    ensures IsSubsequence(r, title)
    ensures forall i :: 0 <= i < |r| ==> SafeChar(isAlnum, r[i])
    ensures r == [] || !IsSpace(r[|r| - 1])
    ensures r <= KeepSafe(isAlnum, title)
    ensures forall i :: |r| <= i < |KeepSafe(isAlnum, title)| ==> IsSpace(KeepSafe(isAlnum, title)[i])
  {
    var kept := KeepSafe(isAlnum, title);
    var r := RStrip(kept);
    PrefixOfSubsequence(r, kept, title);
    r
  }

  /** Applying `safe_title` twice changes nothing. */
  lemma SafeTitleIdempotent(isAlnum: char -> bool, title: string)
    ensures SafeTitle(isAlnum, SafeTitle(isAlnum, title)) == SafeTitle(isAlnum, title)
  {
    var r := SafeTitle(isAlnum, title);
    assert KeepSafe(isAlnum, r) == r;
  }

  /** The record one anchor contributes, if any: the per-anchor step of
      `extract_urls_from_html`. */
  function AnchorRecord(isAlnum: char -> bool, a: Anchor): Option<Link> {
    if a.href == "" then None
    else
      var title := Normalize(a.text);
      if Strip(title) == "" then None
      else Some(Link(a.href, Strip(title), SafeTitle(isAlnum, Strip(title)) + ".pdf"))
  }

  /** What every extracted record looks like. */
  predicate WellFormedRecord(isAlnum: char -> bool, l: Link) {
    && l.url != ""
    && l.title != ""
    && IsNormalized(l.title)
    && l.fileName == SafeTitle(isAlnum, l.title) + ".pdf"
  }

  /** An anchor is dropped exactly when its `href` is empty or its text is all
      whitespace; otherwise its record carries the `href`, the whitespace-
      normalised text (same non-whitespace characters, in order) and the file
      name derived from that title. */
  lemma AnchorRecordSpec(isAlnum: char -> bool, a: Anchor)
    ensures AnchorRecord(isAlnum, a).None? <==>
              a.href == "" || forall i :: 0 <= i < |a.text| ==> IsSpace(a.text[i])
    ensures AnchorRecord(isAlnum, a).Some? ==>
              var l := AnchorRecord(isAlnum, a).value;
              && WellFormedRecord(isAlnum, l)
              && l.url == a.href
              && l.title == Normalize(a.text)
              && NonSpace(l.title) == NonSpace(a.text)
  {
    NormalizeSpec(a.text);
    StripNormalized(Normalize(a.text));
  }

  function RecordOf(isAlnum: char -> bool, a: Anchor): seq<Link> {
    match AnchorRecord(isAlnum, a)
    case None => []
    case Some(l) => [l]
  }

  /** The list `extract_urls_from_html` returns for the anchors, built one
      anchor at a time as its loop does. */
  function Extracted(isAlnum: char -> bool, anchors: seq<Anchor>): seq<Link> {
    if anchors == [] then []
    else Extracted(isAlnum, anchors[..|anchors| - 1]) + RecordOf(isAlnum, anchors[|anchors| - 1])
  }

  /** Extraction preserves document order: the records of a concatenation of
      anchor lists are the records of the first list followed by those of the
      second. Together with `Extracted(isAlnum, [a]) == RecordOf(isAlnum, a)`
      this says each anchor contributes its own record, in place. */
  lemma ExtractedAppend(isAlnum: char -> bool, a: seq<Anchor>, b: seq<Anchor>)
    ensures Extracted(isAlnum, a + b) == Extracted(isAlnum, a) + Extracted(isAlnum, b)
  {
    var f := x => RecordOf(isAlnum, x);
    ExtractedIsGather(isAlnum, a + b);
    ExtractedIsGather(isAlnum, a);
    ExtractedIsGather(isAlnum, b);
    GatherAppend(f, a, b);
  }

  /** The records of the anchors, each anchor's in turn. */
  function Gather(f: Anchor -> seq<Link>, anchors: seq<Anchor>): seq<Link> {
    if anchors == [] then []
    else Gather(f, anchors[..|anchors| - 1]) + f(anchors[|anchors| - 1])
  }

  lemma {:induction false} ExtractedIsGather(isAlnum: char -> bool, anchors: seq<Anchor>)
    ensures Extracted(isAlnum, anchors) == Gather(x => RecordOf(isAlnum, x), anchors)
  {
    if anchors != [] {
      ExtractedIsGather(isAlnum, anchors[..|anchors| - 1]);
    }
  }

  lemma {:induction false} GatherAppend(f: Anchor -> seq<Link>, a: seq<Anchor>, b: seq<Anchor>)
    ensures Gather(f, a + b) == Gather(f, a) + Gather(f, b)
    decreases |b|
  {
    if b == [] {
      assert a + b == a;
    } else {
      var b' := b[..|b| - 1];
      assert (a + b)[..|a + b| - 1] == a + b';
      GatherAppend(f, a, b');
    }
  }

  /** Every extracted record is well formed and comes from an anchor with the
      same `href`; there are never more records than anchors. */
  lemma {:induction false} ExtractedSpec(isAlnum: char -> bool, anchors: seq<Anchor>)
    ensures |Extracted(isAlnum, anchors)| <= |anchors|
    ensures forall l :: l in Extracted(isAlnum, anchors) ==>
              WellFormedRecord(isAlnum, l) && exists a :: a in anchors && a.href == l.url
  {
    if anchors != [] {
      var init, last := anchors[..|anchors| - 1], anchors[|anchors| - 1];
      ExtractedSpec(isAlnum, init);
      AnchorRecordSpec(isAlnum, last);
      assert forall a :: a in init ==> a in anchors;
      assert last in anchors;
    }
  }

  lemma ExtractedSnoc(isAlnum: char -> bool, anchors: seq<Anchor>, i: nat)
    requires i < |anchors|
    ensures Extracted(isAlnum, anchors[..i + 1]) == Extracted(isAlnum, anchors[..i]) + RecordOf(isAlnum, anchors[i])
  {
    assert anchors[..i + 1][..i] == anchors[..i];
  }

  /** `extract_urls_from_html` from the anchor list on: the loop that
      normalises each anchor's text, drops empty ones and appends records. */
  method ExtractUrlsFromHtml(isAlnum: char -> bool, anchors: seq<Anchor>) returns (matches: seq<Link>)
    ensures matches == Extracted(isAlnum, anchors)
  {
    matches := [];
    for i := 0 to |anchors|
      invariant matches == Extracted(isAlnum, anchors[..i])
    {
      ExtractedSnoc(isAlnum, anchors, i);
      var link := anchors[i];
      if link.href == "" {
        continue;
      }
      var title := Normalize(link.text);
      if Strip(title) != "" {
        matches := matches + [Link(link.href, Strip(title), SafeTitle(isAlnum, Strip(title)) + ".pdf")];
      }
    }
    assert anchors[..|anchors|] == anchors;
  }

  /** The payload `write_extracted_json` serialises. */
  function Payload(links: seq<Link>, baseUrl: string): (m: Manifest)
    ensures m.totalCount == |m.links|
    ensures m.links == links && m.baseUrl == baseUrl
  {
    Manifest(|links|, baseUrl, links)
  }

  /** The characters `rstrip('.pdf')` removes. */
  const PdfChars: set<char> := {'.', 'p', 'd', 'f'}

  /** How many entries of `links` carry the file name `name`. */
  function CountName(links: seq<Link>, name: string): nat {
    if links == [] then 0
    else CountName(links[..|links| - 1], name) + (if links[|links| - 1].fileName == name then 1 else 0)
  }

  /** No entry before position `i` carries `name` exactly when the count
      over that prefix is zero. */
  lemma {:induction false} CountNameZero(links: seq<Link>, i: nat, name: string)
    requires i <= |links|
    ensures CountName(links[..i], name) == 0 <==> forall j :: 0 <= j < i ==> links[j].fileName != name
  {
    if i > 0 {
      CountNameZero(links, i - 1, name);
      assert links[..i][..i - 1] == links[..i - 1];
    }
  }

  /** Which occurrence of its file name entry `i` is: 1 for the first. */
  function Occurrence(links: seq<Link>, i: int): nat
    requires 0 <= i < |links|
  {
    CountName(links[..i + 1], links[i].fileName)
  }

  /** The name the k-th occurrence of `name` gets: the trailing run of the
      characters `.`, `p`, `d`, `f` removed, then `_k.pdf`. */
  function SuffixedName(name: string, k: nat): string {
    RStripChars(name, PdfChars) + "_" + NatToString(k) + ".pdf"
  }

  /** An entry preceded by `seen` entries of the same name: kept when there
      are none, renamed to `SuffixedName(name, seen + 1)` otherwise. */
  function Renamed(link: Link, seen: nat): Link {
    if seen == 0 then link else link.(fileName := SuffixedName(link.fileName, seen + 1))
  }

  /** The manifest list after the duplicate-index loop of `main`. */
  function Deduplicated(links: seq<Link>): (r: seq<Link>)
    ensures |r| == |links|
  {
    if links == [] then []
    else
      var n := |links| - 1;
      Deduplicated(links[..n]) + [Renamed(links[n], CountName(links[..n], links[n].fileName))]
  }

  /** Entry `i` depends only on the entries before it. */
  lemma {:induction false} DeduplicatedIndex(links: seq<Link>, i: nat)
    requires i < |links|
    ensures Deduplicated(links)[i] == Renamed(links[i], CountName(links[..i], links[i].fileName))
  {
    var n := |links| - 1;
    if i < n {
      DeduplicatedIndex(links[..n], i);
      assert links[..n][..i] == links[..i];
      assert Deduplicated(links)[i] == Deduplicated(links[..n])[i];
    }
  }

  /** Entry `i` keeps its file name when no earlier entry had that name;
      otherwise, as the k-th entry with that name (k = 1 + the number of earlier
      ones, so k >= 2), it is renamed to `SuffixedName(name, k)`. Urls and
      titles never change. */
  lemma DeduplicatedAt(links: seq<Link>, i: int)
    requires 0 <= i < |links|
    ensures var name, k := links[i].fileName, 1 + CountName(links[..i], links[i].fileName);
            && Occurrence(links, i) == k
            && (k == 1 <==> forall j :: 0 <= j < i ==> links[j].fileName != name)
            && Deduplicated(links)[i] ==
                 (if k == 1 then links[i] else links[i].(fileName := SuffixedName(name, k)))
            && Deduplicated(links)[i].url == links[i].url
            && Deduplicated(links)[i].title == links[i].title
  {
    assert links[..i + 1][..i] == links[..i];
    CountNameZero(links, i, links[i].fileName);
    DeduplicatedIndex(links, i);
  }

  /** Renaming keeps the `.pdf` extension on every name that had it. */
  lemma DeduplicatedKeepsPdf(links: seq<Link>)
    requires forall i :: 0 <= i < |links| ==> EndsWithPdf(links[i].fileName)
    ensures forall i :: 0 <= i < |links| ==> EndsWithPdf(Deduplicated(links)[i].fileName)
  {
    forall i | 0 <= i < |links|
      ensures EndsWithPdf(Deduplicated(links)[i].fileName)
    {
      var name := links[i].fileName;
      var k := Occurrence(links, i);
      DeduplicatedAt(links, i);
      var s := RStripChars(name, PdfChars) + "_" + NatToString(k);
      assert SuffixedName(name, k)[|SuffixedName(name, k)| - 4..] == (s + ".pdf")[|s|..];
    }
  }

  predicate EndsWithPdf(name: string) {
    |name| >= 4 && name[|name| - 4..] == ".pdf"
  }

  /** `rstrip('.pdf')` removes characters, not the suffix: a repeat of
      `Setup.pdf` becomes `Setu_2.pdf`. */
  lemma SetupRepeatLosesItsP()
    ensures SuffixedName("Setup.pdf", 2) == "Setu_2.pdf"
  {
    assert "Setup.pdf"[..8] == "Setup.pd";
    assert "Setup.pd"[..7] == "Setup.p";
    assert "Setup.p"[..6] == "Setup.";
    assert "Setup."[..5] == "Setup";
    assert "Setup"[..4] == "Setu";
    assert RStripChars("Setup.pdf", PdfChars) == "Setu";
  }

  /** Two records with file name `A.pdf` become `A.pdf` and `A_2.pdf`. */
  lemma TwoEqualNames()
    ensures var a := Link("/a", "A", "A.pdf");
            Deduplicated([a, a]) == [a, a.(fileName := "A_2.pdf")]
  {
    var a := Link("/a", "A", "A.pdf");
    var links := [a, a];
    assert links[..1] == [a] && [a][..0] == [] && links[..2] == links;
    assert CountName([a], "A.pdf") == 1;
    assert CountName(links, "A.pdf") == 2;
    assert Occurrence(links, 0) == 1 && Occurrence(links, 1) == 2;
    SuffixedTwo('A');
    assert ['A'] + ".pdf" == "A.pdf" && ['A'] + "_2.pdf" == "A_2.pdf";
    DeduplicatedAt(links, 0);
    DeduplicatedAt(links, 1);
    var r := Deduplicated(links);
    assert r[0] == a && r[1] == a.(fileName := "A_2.pdf");
    assert r == [r[0], r[1]];
  }

  /** The second occurrence of a one-letter name `c.pdf` becomes `c_2.pdf`
      whenever `c` itself survives `rstrip('.pdf')`. */
  lemma SuffixedTwo(c: char)
    requires c !in PdfChars
    ensures SuffixedName([c] + ".pdf", 2) == [c] + "_2.pdf"
  {
    var name := [c] + ".pdf";
    assert name[|name| - 1] == 'f' && name[..4] == [c] + ".pd";
    assert ([c] + ".pd")[3] == 'd' && ([c] + ".pd")[..3] == [c] + ".p";
    assert ([c] + ".p")[2] == 'p' && ([c] + ".p")[..2] == [c] + ".";
    assert ([c] + ".")[1] == '.' && ([c] + ".")[..1] == [c];
    calc {
      RStripChars(name, PdfChars);
      RStripChars([c] + ".pd", PdfChars);
      RStripChars([c] + ".p", PdfChars);
      RStripChars([c] + ".", PdfChars);
      RStripChars([c], PdfChars);
      [c];
    }
    assert NatToString(2) == "2";
  }

  /** Renamed entries are not counted, so the names that come out are not
      always distinct: `a.pdf`, `a.pdf`, `a_2.pdf` become `a.pdf`, `a_2.pdf`,
      `a_2.pdf`. */
  lemma RenamedNamesCanCollide()
    ensures var links := [Link("/1", "a", "a.pdf"), Link("/2", "a", "a.pdf"), Link("/3", "a_2", "a_2.pdf")];
            Deduplicated(links)[1].fileName == Deduplicated(links)[2].fileName == "a_2.pdf"
  {
    var links := [Link("/1", "a", "a.pdf"), Link("/2", "a", "a.pdf"), Link("/3", "a_2", "a_2.pdf")];
    CollidingOccurrences(links);
    DeduplicatedAt(links, 1);
    DeduplicatedAt(links, 2);
    SuffixedTwo('a');
    assert ['a'] + ".pdf" == "a.pdf" && ['a'] + "_2.pdf" == "a_2.pdf";
  }

  /** The three records above are what extraction returns for three anchors
      with texts `a`, `a` and `a_2`, when `a` and `2` are alphanumeric. */
  lemma CollidingRecordsExtracted(isAlnum: char -> bool)
    requires isAlnum('a') && isAlnum('2')
    ensures Extracted(isAlnum, [Anchor("/1", "a"), Anchor("/2", "a"), Anchor("/3", "a_2")])
            == [Link("/1", "a", "a.pdf"), Link("/2", "a", "a.pdf"), Link("/3", "a_2", "a_2.pdf")]
  {
    var l1, l2, l3 := Link("/1", "a", "a.pdf"), Link("/2", "a", "a.pdf"), Link("/3", "a_2", "a_2.pdf");
    assert [l1] + [l2] + [l3] == [l1, l2, l3];
    RecordOfA(isAlnum, "/1");
    RecordOfA(isAlnum, "/2");
    RecordOfA2(isAlnum);
    ExtractedThree(isAlnum, Anchor("/1", "a"), Anchor("/2", "a"), Anchor("/3", "a_2"));
  }

  lemma ExtractedThree(isAlnum: char -> bool, a: Anchor, b: Anchor, c: Anchor)
    ensures Extracted(isAlnum, [a, b, c]) == RecordOf(isAlnum, a) + RecordOf(isAlnum, b) + RecordOf(isAlnum, c)
  {
    var s := [a, b, c];
    var r0, r1, r2 := RecordOf(isAlnum, a), RecordOf(isAlnum, b), RecordOf(isAlnum, c);
    assert s[..0] == [] && s[..3] == s;
    ExtractedSnoc(isAlnum, s, 0);
    assert Extracted(isAlnum, s[..1]) == r0 by { assert [] + r0 == r0; }
    ExtractedSnoc(isAlnum, s, 1);
    ExtractedSnoc(isAlnum, s, 2);
  }

  lemma RecordOfA(isAlnum: char -> bool, url: string)
    requires isAlnum('a') && url != []
    ensures RecordOf(isAlnum, Anchor(url, "a")) == [Link(url, "a", "a.pdf")]
  {
    var a := "a";
    assert a + ".pdf" == "a.pdf";
    assert a[0] == 'a' && !IsSpace('a');
    PlainAnchorRecord(isAlnum, url, a);
  }

  lemma RecordOfA2(isAlnum: char -> bool)
    requires isAlnum('a') && isAlnum('2')
    ensures RecordOf(isAlnum, Anchor("/3", "a_2")) == [Link("/3", "a_2", "a_2.pdf")]
  {
    var a2 := "a_2";
    assert a2 + ".pdf" == "a_2.pdf";
    assert a2[0] == 'a' && a2[1] == '_' && a2[2] == '2' && !IsSpace('_') && !IsSpace('2');
    PlainAnchorRecord(isAlnum, "/3", a2);
  }

  /** An anchor whose text is a single word of safe characters yields the
      record with that text as its title and `text.pdf` as its file name. */
  lemma PlainAnchorRecord(isAlnum: char -> bool, url: string, t: string)
    requires url != [] && t != []
    requires forall i :: 0 <= i < |t| ==> SafeChar(isAlnum, t[i]) && !IsSpace(t[i])
    ensures AnchorRecord(isAlnum, Anchor(url, t)) == Some(Link(url, t, t + ".pdf"))
  {
    assert t + [] == t;
    RunsOfWord(t, []);
    NormalizeIsJoinedRuns(t);
    assert Normalize(t) == t;
    PlainTitleRecord(isAlnum, url, t);
    StripNormalized(t);
  }

  /** A title made only of safe, non-whitespace characters is normalised and
      is its own safe title, so it names the file `title.pdf`. */
  lemma PlainTitleRecord(isAlnum: char -> bool, url: string, t: string)
    requires url != [] && t != []
    requires forall i :: 0 <= i < |t| ==> SafeChar(isAlnum, t[i]) && !IsSpace(t[i])
    ensures WellFormedRecord(isAlnum, Link(url, t, t + ".pdf"))
  {
    assert KeepSafe(isAlnum, t) == t;
  }

  lemma CollidingOccurrences(links: seq<Link>)
    requires links == [Link("/1", "a", "a.pdf"), Link("/2", "a", "a.pdf"), Link("/3", "a_2", "a_2.pdf")]
    ensures Occurrence(links, 1) == 2 && Occurrence(links, 2) == 1
  {
    var l0, l1, l2 := links[0], links[1], links[2];
    assert links[..1] == [l0] && links[..2] == [l0, l1] && links[..3] == links;
    assert [l0][..0] == [] && [l0, l1][..1] == [l0] && links[..2] == [l0, l1];
    assert CountName([l0], "a.pdf") == 1;
    assert CountName([l0, l1], "a.pdf") == 2;
    assert "a.pdf" != "a_2.pdf";
    assert CountName([l0], "a_2.pdf") == 0;
    assert CountName([l0, l1], "a_2.pdf") == 0;
    assert CountName(links, "a_2.pdf") == 1;
  }

  /** The counter map of the duplicate-index loop after `links`: every file
      name seen so far, with the number of times it was seen. */
  function NameCounts(links: seq<Link>): map<string, nat> {
    if links == [] then map[]
    else
      var counts := NameCounts(links[..|links| - 1]);
      var name := links[|links| - 1].fileName;
      counts[name := if name in counts then counts[name] + 1 else 1]
  }

  /** The counter map holds exactly the names seen, each with its count. */
  lemma {:induction false} NameCountsSpec(links: seq<Link>, name: string)
    ensures name in NameCounts(links) <==> CountName(links, name) > 0
    ensures name in NameCounts(links) ==> NameCounts(links)[name] == CountName(links, name)
  {
    if links != [] {
      NameCountsSpec(links[..|links| - 1], name);
    }
  }

  /** Entry `i` of the de-duplicated list, read off the counter map of the
      entries before it. */
  lemma DeduplicatedByCounts(links: seq<Link>, i: nat)
    requires i < |links|
    ensures var counts, name := NameCounts(links[..i]), links[i].fileName;
            && NameCounts(links[..i + 1]) == counts[name := if name in counts then counts[name] + 1 else 1]
            && Deduplicated(links)[i] ==
                 if name in counts then links[i].(fileName := SuffixedName(name, counts[name] + 1)) else links[i]
  {
    NameCountsSnoc(links, i);
    var name, counts := links[i].fileName, NameCounts(links[..i]);
    NameCountsSpec(links[..i], name);
    DeduplicatedIndex(links, i);
    assert CountName(links[..i], name) == if name in counts then counts[name] else 0;
  }

  /** One more entry bumps the counter of its own name and no other. */
  lemma NameCountsSnoc(links: seq<Link>, i: nat)
    requires i < |links|
    ensures var counts, name := NameCounts(links[..i]), links[i].fileName;
            NameCounts(links[..i + 1]) == counts[name := if name in counts then counts[name] + 1 else 1]
  {
    assert links[..i + 1][..i] == links[..i];
  }

  /** The duplicate-index loop of `main`: a counter per original file name,
      and every repeat renamed in place. */
  method AddDuplicateIndex(links: array<Link>)
    modifies links
    ensures links[..] == Deduplicated(old(links[..]))
  {
    ghost var orig := links[..];
    ghost var renamed := Deduplicated(orig);
    var titleDict: map<string, nat> := map[];
    for i := 0 to links.Length
      invariant forall j :: 0 <= j < i ==> links[j] == renamed[j]
      invariant forall j :: i <= j < links.Length ==> links[j] == orig[j]
      invariant titleDict == NameCounts(orig[..i])
    {
      var key := links[i].fileName;
      DeduplicatedByCounts(orig, i);
      if key in titleDict {
        titleDict := titleDict[key := titleDict[key] + 1];
        var fileName := RStripChars(links[i].fileName, PdfChars);
        assert fileName + "_" + NatToString(titleDict[key]) + ".pdf" == SuffixedName(key, titleDict[key]);
        links[i] := links[i].(fileName := fileName + "_" + NatToString(titleDict[key]) + ".pdf");
        assert links[i] == renamed[i];
        continue;
      }
      titleDict := titleDict[key := 1];
    }
    assert links[..] == renamed;
  }

  /** The whole stage after the HTML has been parsed: extract, de-duplicate,
      build the payload. */
  method ExtractMain(isAlnum: char -> bool, anchors: seq<Anchor>, baseUrl: string) returns (manifest: Manifest)
    ensures manifest == Payload(Deduplicated(Extracted(isAlnum, anchors)), baseUrl)
    ensures manifest.totalCount == |manifest.links| <= |anchors|
  {
    var links := ExtractUrlsFromHtml(isAlnum, anchors);
    var arr := new Link[|links|](i requires 0 <= i < |links| => links[i]);
    assert arr[..] == links;
    AddDuplicateIndex(arr);
    manifest := Payload(arr[..], baseUrl);
    ExtractedSpec(isAlnum, anchors);
  }

  /** What the written manifest holds: as many links as its `totalCount`, no
      more than there were anchors, each with a non-empty url, a non-empty
      normalised title and a file name ending in `.pdf`. */
  lemma ManifestSpec(isAlnum: char -> bool, anchors: seq<Anchor>, baseUrl: string)
    ensures var m := Payload(Deduplicated(Extracted(isAlnum, anchors)), baseUrl);
            && m.totalCount == |m.links| <= |anchors|
            && m.baseUrl == baseUrl
            && forall i :: 0 <= i < |m.links| ==>
                 m.links[i].url != "" && m.links[i].title != "" && IsNormalized(m.links[i].title)
                 && EndsWithPdf(m.links[i].fileName)
  {
    var ex := Extracted(isAlnum, anchors);
    ExtractedSpec(isAlnum, anchors);
    forall i | 0 <= i < |ex|
      ensures EndsWithPdf(ex[i].fileName)
    {
      assert ex[i] in ex;
      var s := SafeTitle(isAlnum, ex[i].title);
      assert (s + ".pdf")[|s + ".pdf"| - 4..] == ".pdf";
    }
    DeduplicatedKeepsPdf(ex);
    forall i | 0 <= i < |ex|
      ensures var d := Deduplicated(ex)[i]; d.url != "" && d.title != "" && IsNormalized(d.title)
    {
      assert ex[i] in ex;
      DeduplicatedAt(ex, i);
    }
  }
}
