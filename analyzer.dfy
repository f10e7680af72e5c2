/** `analyze_pdf`: the text of the bulletin is cut into ministry sections, and every
    decree and every resolution in a section becomes one record. */
module Analyzer {
  import opened Text
  import opened Patterns
  import opened Sections
  import opened Spans
  import opened Purpose

  /** One row of the result table, one field per column. */
  datatype Record = Record(
    ministerio: string,
    tipo_documento: string,
    titulo: string,
    proposito: string,
    contenido: string)

  // ---------------------------------------------------------------------------
  // The text of the document
  // ---------------------------------------------------------------------------

  /** The pages whose extracted text is not empty, in page order. */
  function NonEmptyPages(pages: seq<string>): (kept: seq<string>)
    ensures forall i :: 0 <= i < |kept| ==> kept[i] != []
  {
    if pages == [] then []
    else
      var last := pages[|pages| - 1];
      NonEmptyPages(pages[..|pages| - 1]) + (if last == [] then [] else [last])
  }

  /** `"\n".join(parts)`. Texts that are all non-empty join to "" only when there
      are none. */
  function Join(parts: seq<string>): (joined: string)
    ensures (forall i :: 0 <= i < |parts| ==> parts[i] != []) ==> (joined == [] <==> parts == [])
  {
    if parts == [] then []
    else if |parts| == 1 then parts[0]
    else Join(parts[..|parts| - 1]) + "\n" + parts[|parts| - 1]
  }

  /** The full text: the non-empty page texts joined by line breaks. It is empty
      exactly when every page text is. */
  function JoinPages(pages: seq<string>): (text: string)
    ensures text == [] <==> forall i :: 0 <= i < |pages| ==> pages[i] == []
  {
    NonEmptyPagesEmptyIff(pages);
    Join(NonEmptyPages(pages))
  }

  /** Adding a page adds its text after a line break, unless the page or everything
      before it is empty. */
  lemma JoinPagesAppend(pages: seq<string>, page: string)
    ensures JoinPages(pages + [page]) ==
              if page == [] then JoinPages(pages)
              else if JoinPages(pages) == [] then page
              else JoinPages(pages) + "\n" + page
  {
    var all := pages + [page];
    assert all[..|all| - 1] == pages;
    var kept := NonEmptyPages(pages);
    if page != [] {
      assert NonEmptyPages(all) == kept + [page];
      var joined := kept + [page];
      assert joined[..|joined| - 1] == kept && joined[|joined| - 1] == page;
      if kept == [] {
        assert joined == [page];
      }
    } else {
      assert NonEmptyPages(all) == kept;
    }
  }

  /** No page is kept exactly when every page is empty. */
  lemma {:induction false} NonEmptyPagesEmptyIff(pages: seq<string>)
    ensures NonEmptyPages(pages) == [] <==> forall i :: 0 <= i < |pages| ==> pages[i] == []
  {
    if pages != [] {
      var init := pages[..|pages| - 1];
      NonEmptyPagesEmptyIff(init);
      assert forall i :: 0 <= i < |init| ==> init[i] == pages[i];
    }
  }

  // ---------------------------------------------------------------------------
  // One record
  // ---------------------------------------------------------------------------

  /** The record of one block found by `findall`: the block without surrounding
      whitespace, its first line (stripped) as title, its purpose, and what follows
      the title (stripped) as content. */
  function BuildRecord(ministry: string, kind: Kind, block: string): (r: Record)
    ensures r.ministerio == ministry && r.tipo_documento == kind.Label()
  {
    var d := Strip(block);
    var title := Strip(d[..Find(d, 0, LineBreak)]);
    Record(ministry, kind.Label(), title, ExtractPurpose(d), Strip(d[|title|..]))
  }

  /** No line break occurs before the first one. */
  lemma NoBreakBeforeFirst(d: string)
    ensures forall k :: 0 <= k < Find(d, 0, LineBreak) ==> d[k] != '\n'
  {
    forall k | 0 <= k < Find(d, 0, LineBreak)
      ensures d[k] != '\n'
    {
      assert !MatchesAt(d, k, LineBreak);
      assert d[k..][0] == d[k];
    }
  }

  /** Stripping a prefix of a text that does not begin with whitespace removes only
      trailing whitespace from it. */
  lemma PrefixStrip(d: string, f: nat)
    requires f <= |d| && (f == 0 || !IsSpace(d[0]))
    ensures var t := Strip(d[..f]);
            && |t| <= f
            && d[..|t|] == t
            && forall k :: |t| <= k < f ==> IsSpace(d[k])
  {
    var x := d[..f];
    if x != [] {
      assert x[0] == d[0];
      StripKeepsStart(x);
    }
    var t := Strip(x);
    assert d[..|t|] == x[..|t|];
    forall k | |t| <= k < f
      ensures IsSpace(d[k])
    {
      assert d[k] == x[k];
    }
  }

  /** The title is the first line of the act, without its trailing whitespace. */
  lemma TitleShape(d: string)
    requires d == [] || !IsSpace(d[0])
    ensures var f := Find(d, 0, LineBreak); var title := Strip(d[..f]);
            && |title| <= f
            && d[..|title|] == title
            && '\n' !in title
            && forall k :: |title| <= k < f ==> IsSpace(d[k])
  {
    var f := Find(d, 0, LineBreak);
    PrefixStrip(d, f);
    NoBreakBeforeFirst(d);
    var title := Strip(d[..f]);
    assert forall k :: 0 <= k < |title| ==> title[k] == d[..|title|][k] == d[k];
  }

  /** The title of a record: the stripped act is its title followed by the rest, and
      the title is the act's whole first line up to trailing whitespace. */
  lemma RecordTitle(ministry: string, kind: Kind, block: string)
    ensures var t := BuildRecord(ministry, kind, block).titulo; var d := Strip(block);
            && |t| <= |d|
            && d == t + d[|t|..]
            && '\n' !in t
            && (t == [] || !IsSpace(t[|t| - 1]))
            && forall k :: |t| <= k < Find(d, 0, LineBreak) ==> IsSpace(d[k])
  {
    var d := Strip(block);
    var t := Strip(d[..Find(d, 0, LineBreak)]);
    TitleShape(d);
    PrefixThenRest(d, |t|);
  }

  /** The content of a record is a piece of the stripped act, and so is the purpose,
      which, when there is one, opens with "por la cual". */
  lemma RecordPieces(ministry: string, kind: Kind, block: string)
    ensures var r := BuildRecord(ministry, kind, block); var d := Strip(block);
            && IsSubstring(r.contenido, d)
            && (r.proposito == [] || (CiStartsWith(r.proposito, POR_LA_CUAL) && IsSubstring(r.proposito, d)))
  {
    var d := Strip(block);
    var t := BuildRecord(ministry, kind, block).titulo;
    TitleShape(d);
    StripIsSubstring(d[|t|..]);
    SuffixIsSubstring(d, |t|);
    SubstringTrans(Strip(d[|t|..]), d[|t|..], d);
    if PurposeMatch(d).Match? {
      PurposeShape(d);
    }
  }

  /** The content of a record: the stripped act is its title, then whitespace, then
      the content, which does not begin with whitespace; the purpose is the one
      `extract_purpose` finds in the stripped act. */
  lemma RecordContent(ministry: string, kind: Kind, block: string)
    ensures var r := BuildRecord(ministry, kind, block); var d := Strip(block);
            var t := |r.titulo|; var g := |d| - t - |r.contenido|;
            && t + |r.contenido| <= |d|
            && d == r.titulo + d[t..t + g] + r.contenido
            && (forall k :: t <= k < t + g ==> IsSpace(d[k]))
            && (r.contenido != [] ==> !IsSpace(r.contenido[0]))
            && r.proposito == ExtractPurpose(d)
  {
    var d := Strip(block);
    StripEnds(block);
    TitleContent(d);
  }

  /** A text without whitespace at either end is its stripped first line, then
      whitespace, then the rest stripped. */
  lemma TitleContent(d: string)
    requires d == [] || (!IsSpace(d[0]) && !IsSpace(d[|d| - 1]))
    ensures var title := Strip(d[..Find(d, 0, LineBreak)]); var c := Strip(d[|title|..]);
            var t := |title|; var g := |d| - t - |c|;
            && t + |c| <= |d|
            && d == title + d[t..t + g] + c
            && forall k :: t <= k < t + g ==> IsSpace(d[k])
  {
    TitleShape(d);
    StripTail(d, Strip(d[..Find(d, 0, LineBreak)]));
  }

  /** A text that opens with `title` and does not end with whitespace is the title,
      then whitespace, then the rest stripped. */
  lemma StripTail(d: string, title: string)
    requires |title| <= |d| && d[..|title|] == title && (d == [] || !IsSpace(d[|d| - 1]))
    ensures var t := |title|; var c := Strip(d[t..]); var g := |d| - t - |c|;
            && t + |c| <= |d|
            && d == title + d[t..t + g] + c
            && forall k :: t <= k < t + g ==> IsSpace(d[k])
  {
    var t := |title|;
    var x := d[t..];
    var i := StripStart(x);
    if x != [] {
      assert x[|x| - 1] == d[|d| - 1];
      assert StripEnd(x) == |x|;
    }
    assert Strip(x) == x[i..] == d[t + i..];
    forall k | t <= k < t + i
      ensures IsSpace(d[k])
    {
      assert d[k] == x[k - t];
    }
    PrefixThenRest(d, t);
    assert x == d[t..t + i] + d[t + i..];
    SeqAssoc(title, d[t..t + i], d[t + i..]);
  }

  /** A prefix long enough to hold a literal without line breaks still starts with it. */
  lemma FirstLineKeepsLiteral(d: string, lit: string)
    requires StartsWith(d, lit) && '\n' !in lit
    ensures |lit| <= Find(d, 0, LineBreak)
    ensures StartsWith(d[..Find(d, 0, LineBreak)], lit)
  {
    var f := Find(d, 0, LineBreak);
    assert forall k :: 0 <= k < |lit| ==> d[k] == d[..|lit|][k];
    assert f < |d| ==> d[f..][0] == d[f];
    assert d[..f][..|lit|] == d[..|lit|];
  }

  /** The title of an act keeps the whole literal the act opens with. */
  lemma TitleKeepsLiteral(block: string, lit: string)
    requires StartsWith(block, lit) && lit != [] && !IsSpace(lit[0]) && !IsSpace(lit[|lit| - 1]) && '\n' !in lit
    ensures var d := Strip(block); StartsWith(Strip(d[..Find(d, 0, LineBreak)]), lit)
  {
    var d := Strip(block);
    StripKeepsLiteral(block, lit);
    FirstLineKeepsLiteral(d, lit);
    StripKeepsLiteral(d[..Find(d, 0, LineBreak)], lit);
  }

  /** The title of a block found by `findall` begins with the block's marker. */
  lemma TitleOpensWithMarker(ministry: string, kind: Kind, block: string)
    requires Starts(block, kind.Marker())
    ensures Starts(BuildRecord(ministry, kind, block).titulo, kind.Marker())
  {
    if kind == Decree {
      TitleKeepsLiteral(block, DECRETO_NUMERO);
    } else if StartsWith(block, RESOLUCION_NUMERO) {
      TitleKeepsLiteral(block, RESOLUCION_NUMERO);
    } else {
      TitleKeepsLiteral(block, RESOLUCIN_NUMERO);
    }
  }

  // ---------------------------------------------------------------------------
  // One ministry section
  // ---------------------------------------------------------------------------

  /** The records of the blocks of one kind, in the order `findall` found them. */
  function Records(ministry: string, kind: Kind, blocks: seq<string>): (recs: seq<Record>)
    ensures |recs| == |blocks|
  {
    Map(b => BuildRecord(ministry, kind, b), blocks)
  }

  /** `f` applied to every element of `xs`, in order. */
  function Map<A, B>(f: A -> B, xs: seq<A>): (ys: seq<B>)
    ensures |ys| == |xs|
    ensures forall i :: 0 <= i < |xs| ==> ys[i] == f(xs[i])
  {
    seq(|xs|, i requires 0 <= i < |xs| => f(xs[i]))
  }

  /** Mapping one more element appends its image. */
  lemma MapSnoc<A, B>(f: A -> B, xs: seq<A>, j: nat)
    requires j < |xs|
    ensures Map(f, xs[..j + 1]) == Map(f, xs[..j]) + [f(xs[j])]
  {
    assert forall i :: 0 <= i < j ==> xs[..j + 1][i] == xs[..j][i];
  }

  /** The records of one section: all its decrees, then all its resolutions, one per
      block `findall` returns, each naming the section's ministry. */
  function SectionRecords(ministry: string, content: string): (recs: seq<Record>)
    ensures |recs| == |FindAll(content, Decree)| + |FindAll(content, Resolution)|
    ensures forall i :: 0 <= i < |recs| ==> recs[i].ministerio == ministry
  {
    Records(ministry, Decree, FindAll(content, Decree)) + Records(ministry, Resolution, FindAll(content, Resolution))
  }

  /** The records of blocks that each open with a marker of one kind name the
      ministry, carry the kind's label and have titles that open with the marker. */
  lemma RecordsShape(ministry: string, kind: Kind, blocks: seq<string>)
    requires forall i :: 0 <= i < |blocks| ==> Starts(blocks[i], kind.Marker())
    ensures var recs := Records(ministry, kind, blocks);
            forall i :: 0 <= i < |recs| ==>
              && recs[i].ministerio == ministry
              && recs[i].tipo_documento == kind.Label()
              && Starts(recs[i].titulo, kind.Marker())
  {
    var recs := Records(ministry, kind, blocks);
    forall i | 0 <= i < |recs|
      ensures Starts(recs[i].titulo, kind.Marker())
    {
      TitleOpensWithMarker(ministry, kind, blocks[i]);
    }
  }

  /** A section yields one record per marker: first one DECRETO record for each
      "DECRETO NÚMERO", then one RESOLUCIÓN record for each resolution marker, every
      title opening with its marker and every record naming the section's ministry. */
  lemma SectionShape(ministry: string, content: string)
    ensures var recs := SectionRecords(ministry, content);
            |recs| == Count(content, 0, DecreeMarker) + Count(content, 0, ResolutionMarker)
    ensures var recs := SectionRecords(ministry, content);
            forall i :: 0 <= i < |recs| ==> recs[i].ministerio == ministry
    ensures var recs := SectionRecords(ministry, content);
            forall i :: 0 <= i < Count(content, 0, DecreeMarker) ==>
              recs[i].tipo_documento == "DECRETO" && Starts(recs[i].titulo, DecreeMarker)
    ensures var recs := SectionRecords(ministry, content);
            forall i :: Count(content, 0, DecreeMarker) <= i < |recs| ==>
              recs[i].tipo_documento == "RESOLUCIÓN" && Starts(recs[i].titulo, ResolutionMarker)
  {
    var decrees := Records(ministry, Decree, FindAll(content, Decree));
    var resolutions := Records(ministry, Resolution, FindAll(content, Resolution));
    FindAllShape(content, Decree);
    FindAllShape(content, Resolution);
    RecordsShape(ministry, Decree, FindAll(content, Decree));
    RecordsShape(ministry, Resolution, FindAll(content, Resolution));
    ConcatShape(decrees, resolutions, ministry);
  }

  /** Indexing into the decrees followed by the resolutions. */
  lemma ConcatShape(decrees: seq<Record>, resolutions: seq<Record>, ministry: string)
    requires forall i :: 0 <= i < |decrees| ==>
               decrees[i].ministerio == ministry && decrees[i].tipo_documento == "DECRETO" && Starts(decrees[i].titulo, DecreeMarker)
    requires forall i :: 0 <= i < |resolutions| ==>
               resolutions[i].ministerio == ministry && resolutions[i].tipo_documento == "RESOLUCIÓN" && Starts(resolutions[i].titulo, ResolutionMarker)
    ensures var recs := decrees + resolutions;
            && (forall i :: 0 <= i < |recs| ==> recs[i].ministerio == ministry)
            && (forall i :: 0 <= i < |decrees| ==> recs[i].tipo_documento == "DECRETO" && Starts(recs[i].titulo, DecreeMarker))
            && (forall i :: |decrees| <= i < |recs| ==> recs[i].tipo_documento == "RESOLUCIÓN" && Starts(recs[i].titulo, ResolutionMarker))
  {
    var recs := decrees + resolutions;
    assert forall i :: |decrees| <= i < |recs| ==> recs[i] == resolutions[i - |decrees|];
  }

  // ---------------------------------------------------------------------------
  // The whole document
  // ---------------------------------------------------------------------------

  /** The records of each section of a split, in heading order: section `k` is the
      heading `parts[2k + 1]` and the text `parts[2k + 2]` that follows it. */
  function SectionsOf(parts: seq<string>): (sections: seq<seq<Record>>)
    requires |parts| % 2 == 1
    ensures |sections| == |parts| / 2
  {
    Map((sec: (string, string)) => SectionRecords(Strip(sec.0), sec.1), HeadedSections(parts))
  }

  /** The pieces of a split taken two by two: each heading with the text after it. */
  function HeadedSections(parts: seq<string>): (pairs: seq<(string, string)>)
    requires |parts| % 2 == 1
    ensures |pairs| == |parts| / 2
  {
    seq(|parts| / 2, k requires 0 <= k < |parts| / 2 => (parts[2 * k + 1], parts[2 * k + 2]))
  }

  /** The lists of records one after the other. */
  function Flatten(lists: seq<seq<Record>>): (flat: seq<Record>) {
    if lists == [] then [] else Flatten(lists[..|lists| - 1]) + lists[|lists| - 1]
  }

  /** The records `analyze_pdf` collects from a text, in order. A text without any
      ministry heading yields none. */
  function Analyze(text: string): (recs: seq<Record>)
    ensures HasNoHeading(text) ==> recs == []
  {
    assert HasNoHeading(text) ==> Find(text, 0, Heading) == |text|;
    Flatten(SectionsOf(SplitOnHeadings(text)))
  }

  /** The sections of a text. Each pairs a heading, a line that starts with
      "Ministerio", with the text up to the next heading. That text holds no heading
      and starts with the line break that ends the heading, unless it is the empty
      last one. There are no sections exactly when the text has no heading. */
  lemma HeadedSectionsShape(s: string)
    ensures var pairs := HeadedSections(SplitOnHeadings(s));
            forall k :: 0 <= k < |pairs| ==> IsHeadingText(pairs[k].0) && HasNoHeading(pairs[k].1)
    ensures var pairs := HeadedSections(SplitOnHeadings(s));
            forall k :: 0 <= k < |pairs| ==>
              if pairs[k].1 == [] then k == |pairs| - 1 else pairs[k].1[0] == '\n'
    ensures HeadedSections(SplitOnHeadings(s)) == [] <==> HasNoHeading(s)
  {
    var parts := SplitOnHeadings(s);
    var pairs := HeadedSections(parts);
    SplitOnHeadingsShape(s);
    forall k | 0 <= k < |pairs|
      ensures pairs[k] == (parts[2 * k + 1], parts[2 * (k + 1)])
    {
    }
    if |parts| == 1 {
      assert parts[0] == s[..Find(s, 0, Heading)];
    }
  }

  /** `analyze_pdf` on the pages of a document: the loop over the ministry sections,
      each heading followed by the text up to the next heading; in each, the decrees
      and then the resolutions are appended to the records. */
  method AnalyzePages(pages: seq<string>) returns (data: seq<Record>)
    ensures data == Analyze(JoinPages(pages))
  {
    var fullText := JoinPages(pages);
    var sections := SplitOnHeadings(fullText);
    ghost var all := SectionsOf(sections);
    ghost var n := 0;
    assert |sections| == 2 * |all| + 1;
    data := [];
    var i := 1;
    while i < |sections|
      invariant i == 2 * n + 1 && n <= |all|
      invariant data == Flatten(all[..n])
    {
      var ministry := Strip(sections[i]);
      var content := sections[i + 1];
      ghost var done := data;
      data := AppendRecords(data, ministry, Decree, FindAll(content, Decree));
      data := AppendRecords(data, ministry, Resolution, FindAll(content, Resolution));
      SectionAppend(done, ministry, content);
      SectionAt(sections, n);
      FlattenSnoc(all, n);
      i := i + 2;
      n := n + 1;
    }
    assert all[..n] == all;
  }

  /** One of the two loops over the blocks of a section: for each block in turn, its
      stripped text, the title, the purpose and the rest after the title make one
      more record at the end of `data`. */
  method AppendRecords(data: seq<Record>, ministry: string, kind: Kind, blocks: seq<string>) returns (out: seq<Record>)
    ensures out == data + Records(ministry, kind, blocks)
  {
    out := data;
    for j := 0 to |blocks|
      invariant out == data + Records(ministry, kind, blocks[..j])
    {
      var dec := Strip(blocks[j]);
      var title := Strip(dec[..Find(dec, 0, LineBreak)]);
      var purpose := ExtractPurpose(dec);
      var remainingText := Strip(dec[|title|..]);
      RecordStep(ministry, kind, blocks, j, data, out);
      out := out + [Record(ministry, kind.Label(), title, purpose, remainingText)];
    }
    assert blocks[..|blocks|] == blocks;
  }

  /** Appending the decrees and then the resolutions appends the section's records. */
  lemma SectionAppend(done: seq<Record>, ministry: string, content: string)
    ensures done + Records(ministry, Decree, FindAll(content, Decree)) + Records(ministry, Resolution, FindAll(content, Resolution))
            == done + SectionRecords(ministry, content)
  {
    var decrees := Records(ministry, Decree, FindAll(content, Decree));
    var resolutions := Records(ministry, Resolution, FindAll(content, Resolution));
    assert SectionRecords(ministry, content) == decrees + resolutions;
    SeqAssoc(done, decrees, resolutions);
  }

  /** Concatenation is associative. Dafny knows this without
      proof; the lemma only keeps the solver's work small where it is needed. */
  lemma SeqAssoc<T>(a: seq<T>, b: seq<T>, c: seq<T>)
    ensures a + b + c == a + (b + c)
  {
  }

  /** Section `k` of a split is the records of heading `2k + 1` and the text after it:
      `SectionsOf` unfolded at one index, stated apart to keep the loop's proof small. */
  lemma SectionAt(parts: seq<string>, k: nat)
    requires |parts| % 2 == 1 && 2 * k + 2 < |parts|
    ensures SectionsOf(parts)[k] == SectionRecords(Strip(parts[2 * k + 1]), parts[2 * k + 2])
  {
    assert HeadedSections(parts)[k] == (parts[2 * k + 1], parts[2 * k + 2]);
  }

  /** One turn of the loop over the blocks of one kind: the record it appends is the
      record of the next block. */
  lemma RecordStep(ministry: string, kind: Kind, blocks: seq<string>, j: nat, done: seq<Record>, data: seq<Record>)
    requires j < |blocks| && data == done + Records(ministry, kind, blocks[..j])
    ensures var d := Strip(blocks[j]);
            var title := Strip(d[..Find(d, 0, LineBreak)]);
            data + [Record(ministry, kind.Label(), title, ExtractPurpose(d), Strip(d[|title|..]))]
              == done + Records(ministry, kind, blocks[..j + 1])
  {
    RecordsSnoc(ministry, kind, blocks, j);
  }

  /** One more block adds its record at the end. */
  lemma RecordsSnoc(ministry: string, kind: Kind, blocks: seq<string>, j: nat)
    requires j < |blocks|
    ensures Records(ministry, kind, blocks[..j + 1]) == Records(ministry, kind, blocks[..j]) + [BuildRecord(ministry, kind, blocks[j])]
  {
    MapSnoc(b => BuildRecord(ministry, kind, b), blocks, j);
  }

  /** One more section adds its records at the end. */
  lemma FlattenSnoc(lists: seq<seq<Record>>, n: nat)
    requires n < |lists|
    ensures Flatten(lists[..n + 1]) == Flatten(lists[..n]) + lists[n]
  {
    assert lists[..n + 1][..n] == lists[..n];
  }

  /** What every record says about itself: the ministry names a "Ministerio" on one
      line, the type is DECRETO or RESOLUCIÓN and the title opens with the matching
      marker, the title is one line, and a purpose opens with "por la cual". */
  predicate RecordOk(r: Record) {
    && StartsWith(r.ministerio, MINISTERIO) && '\n' !in r.ministerio
    && ((r.tipo_documento == "DECRETO" && Starts(r.titulo, DecreeMarker))
        || (r.tipo_documento == "RESOLUCIÓN" && Starts(r.titulo, ResolutionMarker)))
    && '\n' !in r.titulo
    && (r.proposito == [] || CiStartsWith(r.proposito, POR_LA_CUAL))
  }

  /** The ministry of a section is its heading, which begins with "Ministerio" and
      stays on one line. */
  lemma MinistryShape(heading: string)
    requires IsHeadingText(heading)
    ensures StartsWith(Strip(heading), MINISTERIO) && '\n' !in Strip(heading)
  {
    StripKeepsLiteral(heading, MINISTERIO);
    assert forall k :: 0 <= k < |Strip(heading)| ==> Strip(heading)[k] == heading[k];
  }

  /** Every record of `recs` satisfies `RecordOk`. */
  predicate RecordsOk(recs: seq<Record>) {
    forall i :: 0 <= i < |recs| ==> RecordOk(recs[i])
  }

  lemma SectionRecordsOk(ministry: string, content: string)
    requires StartsWith(ministry, MINISTERIO) && '\n' !in ministry
    ensures RecordsOk(SectionRecords(ministry, content))
  {
    var recs := SectionRecords(ministry, content);
    var decrees := FindAll(content, Decree);
    var resolutions := FindAll(content, Resolution);
    SectionShape(ministry, content);
    FindAllShape(content, Decree);
    forall i | 0 <= i < |recs|
      ensures RecordOk(recs[i])
    {
      if i < |decrees| {
        RecordTitle(ministry, Decree, decrees[i]);
        RecordPieces(ministry, Decree, decrees[i]);
      } else {
        RecordTitle(ministry, Resolution, resolutions[i - |decrees|]);
        RecordPieces(ministry, Resolution, resolutions[i - |decrees|]);
      }
    }
  }

  /** Lists whose records all satisfy `RecordOk` flatten to such a list. */
  lemma {:induction false} FlattenOk(lists: seq<seq<Record>>)
    requires forall k :: 0 <= k < |lists| ==> RecordsOk(lists[k])
    ensures RecordsOk(Flatten(lists))
  {
    if lists != [] {
      var init := lists[..|lists| - 1];
      var last := lists[|lists| - 1];
      assert forall k :: 0 <= k < |init| ==> init[k] == lists[k];
      FlattenOk(init);
      var flat := Flatten(init) + last;
      assert forall i :: |Flatten(init)| <= i < |flat| ==> flat[i] == last[i - |Flatten(init)|];
    }
  }

  /** Every record of a document satisfies `RecordOk`. */
  lemma AnalyzeRecordsOk(text: string)
    ensures RecordsOk(Analyze(text))
  {
    var parts := SplitOnHeadings(text);
    var sections := SectionsOf(parts);
    SplitOnHeadingsShape(text);
    forall k | 0 <= k < |sections|
      ensures RecordsOk(sections[k])
    {
      MinistryShape(parts[2 * k + 1]);
      SectionRecordsOk(Strip(parts[2 * k + 1]), parts[2 * k + 2]);
    }
    FlattenOk(sections);
  }

  /** The text before the first ministry heading yields nothing: cutting it off leaves
      the records unchanged. */
  lemma PreambleIgnored(text: string)
    ensures Analyze(text) == Analyze(text[Find(text, 0, Heading)..])
  {
    var h := Find(text, 0, Heading);
    var a, b := SplitOnHeadings(text), SplitOnHeadings(text[h..]);
    SplitAfterPreamble(text);
    forall k | 0 <= k < |a| / 2
      ensures a[2 * k + 1] == b[2 * k + 1] && a[2 * k + 2] == b[2 * k + 2]
    {
      assert a[2 * k + 1] == a[1..][2 * k] && a[2 * k + 2] == a[1..][2 * k + 1];
      assert b[2 * k + 1] == b[1..][2 * k] && b[2 * k + 2] == b[1..][2 * k + 1];
    }
    assert HeadedSections(a) == HeadedSections(b);
  }
}
