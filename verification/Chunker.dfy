/**
 The markdown chunker `_chunk_text`: one chunk per section, short sections merged, long
 sections packed paragraph by paragraph.
 */
module Chunker {
  import opened Text

  // ---------------------------------------------------------------- sections and paragraphs

  function Concat(pieces: seq<string>): string {
    if pieces == [] then "" else Concat(pieces[..|pieces| - 1]) + pieces[|pieces| - 1]
  }

  /** `n` times `#` and a blank, from `i` on. */
  predicate HashesAt(text: string, i: nat, n: nat) {
    i + n < |text| && text[i + n] == ' ' && forall k :: i <= k < i + n ==> text[k] == '#'
  }

  /** A line that begins with one to three `#` and a blank starts at `i`. */
  predicate HeadingAt(text: string, i: nat) {
    && i < |text| && (i == 0 || text[i - 1] == '\n')
    && (HashesAt(text, i, 1) || HashesAt(text, i, 2) || HashesAt(text, i, 3))
  }

  /** `text[..n]` cut in front of every heading. */
  function Cut(text: string, n: nat): seq<string>
    requires n <= |text|
  {
    if n == 0 then []
    else
      var pieces, c := Cut(text, n - 1), text[n - 1];
      if pieces == [] || HeadingAt(text, n - 1) then pieces + [[c]]
      else pieces[..|pieces| - 1] + [pieces[|pieces| - 1] + [c]]
  }

  /** The newline at `i` is one of two or more in a row. */
  predicate SeparatorAt(s: string, i: nat) {
    i < |s| && s[i] == '\n' && ((i > 0 && s[i - 1] == '\n') || (i + 1 < |s| && s[i + 1] == '\n'))
  }

  /** `s[..n]` split at runs of two or more newlines. */
  function SplitAtBlank(s: string, n: nat): (pieces: seq<string>)
    requires n <= |s|
    ensures pieces != []
  {
    if n == 0 then [""]
    else
      var pieces := SplitAtBlank(s, n - 1);
      if SeparatorAt(s, n - 1) then
        if n >= 2 && SeparatorAt(s, n - 2) then pieces else pieces + [""]
      else pieces[..|pieces| - 1] + [pieces[|pieces| - 1] + [s[n - 1]]]
  }

  /** The pieces stripped of surrounding whitespace, without those that were nothing else. */
  function Stripped(pieces: seq<string>): seq<string> {
    if pieces == [] then []
    else
      var front, last := Stripped(pieces[..|pieces| - 1]), Strip(pieces[|pieces| - 1]);
      if last != "" then front + [last] else front
  }

  function Sections(text: string): seq<string> {
    Stripped(Cut(text, |text|))
  }

  function Paragraphs(section: string): seq<string> {
    Stripped(SplitAtBlank(section, |section|))
  }

  // ---------------------------------------------------------------- packing

  function Flushed(chunks: seq<string>, buffer: string): seq<string> {
    if buffer != "" then chunks + [buffer] else chunks
  }

  /** The chunks that are finished and the text that waits to be one. */
  datatype Buffered = Buffered(chunks: seq<string>, buffer: string)

  function Joined(buffer: string, more: string): string {
    if buffer != "" then Strip(buffer + "\n\n" + more) else more
  }

  function PackParagraph(st: Buffered, para: string, maxChars: int): Buffered {
    if |st.buffer| + |para| + 2 <= maxChars then st.(buffer := Joined(st.buffer, para))
    else Buffered(Flushed(st.chunks, st.buffer), if |para| <= maxChars then para else Take(para, maxChars))
  }

  function PackParagraphs(paras: seq<string>, maxChars: int): Buffered {
    if paras == [] then Buffered([], "")
    else PackParagraph(PackParagraphs(paras[..|paras| - 1], maxChars), paras[|paras| - 1], maxChars)
  }

  function SplitLarge(section: string, maxChars: int): seq<string> {
    var st := PackParagraphs(Paragraphs(section), maxChars);
    var result := Flushed(st.chunks, st.buffer);
    if result != [] then result else [Take(section, maxChars)]
  }

  function PackSection(st: Buffered, section: string, maxChars: int, minSection: int): Buffered {
    if |section| >= minSection then
      var more := if |section| > maxChars then SplitLarge(section, maxChars) else [section];
      Buffered(Flushed(st.chunks, st.buffer) + more, "")
    else
      var candidate := Joined(st.buffer, section);
      if |candidate| <= maxChars then st.(buffer := candidate)
      else Buffered(st.chunks + [st.buffer], section)
  }

  function PackSections(sections: seq<string>, maxChars: int, minSection: int): Buffered {
    if sections == [] then Buffered([], "")
    else
      var front := PackSections(sections[..|sections| - 1], maxChars, minSection);
      PackSection(front, sections[|sections| - 1], maxChars, minSection)
  }

  function Chunks(text: string, maxChars: int, minSection: int): seq<string> {
    var st := PackSections(Sections(text), maxChars, minSection);
    var chunks := Flushed(st.chunks, st.buffer);
    if chunks != [] then chunks else if text != "" then [Take(text, maxChars)] else []
  }

  // ---------------------------------------------------------------- the loops

  method SplitLargeSection(section: string, maxChars: int) returns (result: seq<string>)
    ensures result == SplitLarge(section, maxChars)
  {
    hide Paragraphs, Strip, Take;
    var paras := Paragraphs(section);
    result := [];
    var part := "";
    for i := 0 to |paras|
      invariant Buffered(result, part) == PackParagraphs(paras[..i], maxChars)
    {
      assert paras[..i + 1][..i] == paras[..i];
      var para := paras[i];
      if |part| + |para| + 2 <= maxChars {
        part := if part != "" then Strip(part + "\n\n" + para) else para;
      } else {
        if part != "" {
          result := result + [part];
        }
        part := if |para| <= maxChars then para else Take(para, maxChars);
      }
    }
    assert paras[..|paras|] == paras;
    if part != "" {
      result := result + [part];
    }
    if result == [] {
      result := [Take(section, maxChars)];
    }
  }

  method ChunkText(text: string, maxChars: int := 800, minSection: int := 60) returns (chunks: seq<string>)
    ensures chunks == Chunks(text, maxChars, minSection)
  {
    hide Sections, SplitLarge, Strip, Take;
    var sections := Sections(text);
    chunks := [];
    var tinyBuf := "";
    for i := 0 to |sections|
      invariant Buffered(chunks, tinyBuf) == PackSections(sections[..i], maxChars, minSection)
    {
      assert sections[..i + 1][..i] == sections[..i];
      var section := sections[i];
      if |section| >= minSection {
        if tinyBuf != "" {
          chunks := chunks + [tinyBuf];
          tinyBuf := "";
        }
        if |section| > maxChars {
          var parts := SplitLargeSection(section, maxChars);
          chunks := chunks + parts;
        } else {
          chunks := chunks + [section];
        }
      } else {
        var candidate := if tinyBuf != "" then Strip(tinyBuf + "\n\n" + section) else section;
        if |candidate| <= maxChars {
          tinyBuf := candidate;
        } else {
          chunks := chunks + [tinyBuf];
          tinyBuf := section;
        }
      }
    }
    assert sections[..|sections|] == sections;
    if tinyBuf != "" {
      chunks := chunks + [tinyBuf];
    }
    if chunks == [] {
      chunks := if text != "" then [Take(text, maxChars)] else [];
    }
  }

  // ---------------------------------------------------------------- the characters that are not whitespace

  function NonSpace(s: string): string {
    if s == "" then "" else NonSpace(s[..|s| - 1]) + if IsSpace(s[|s| - 1]) then "" else [s[|s| - 1]]
  }

  lemma Assoc(a: string, b: string, c: string)
    ensures a + (b + c) == (a + b) + c
    ensures a + "" == a
  {
  }

  lemma {:induction false} NonSpaceConcat(a: string, b: string)
    ensures NonSpace(a + b) == NonSpace(a) + NonSpace(b)
  {
    if b == "" {
      assert a + b == a;
    } else {
      assert (a + b)[..|a + b| - 1] == a + b[..|b| - 1];
      NonSpaceConcat(a, b[..|b| - 1]);
    }
  }

  lemma {:induction false} LStripKeeps(s: string)
    ensures NonSpace(LStrip(s)) == NonSpace(s)
    ensures LStrip(s) != "" ==> !IsSpace(LStrip(s)[0])
  {
    if s != "" && IsSpace(s[0]) {
      assert s == [s[0]] + s[1..];
      NonSpaceConcat([s[0]], s[1..]);
      LStripKeeps(s[1..]);
    }
  }

  lemma {:induction false} RStripKeeps(s: string)
    ensures NonSpace(RStrip(s)) == NonSpace(s) && |RStrip(s)| <= |s|
    ensures RStrip(s) != "" ==> !IsSpace(RStrip(s)[|RStrip(s)| - 1])
  {
    if s != "" && IsSpace(s[|s| - 1]) {
      RStripKeeps(s[..|s| - 1]);
    }
  }

  lemma {:induction false} LStripShorter(s: string)
    ensures |LStrip(s)| <= |s|
  {
    if s != "" {
      LStripShorter(s[1..]);
    }
  }

  /** Ends in a character that is not whitespace. */
  predicate EndsSolid(s: string) {
    s != "" && !IsSpace(s[|s| - 1])
  }

  lemma StripKeeps(s: string)
    ensures NonSpace(Strip(s)) == NonSpace(s) && |Strip(s)| <= |s|
    ensures Strip(s) == "" || EndsSolid(Strip(s))
    ensures Strip(s) == "" <==> NonSpace(s) == ""
  {
    LStripKeeps(s);
    LStripShorter(s);
    RStripKeeps(LStrip(s));
  }

  /** Cutting off the end of a text that ends solid loses something. */
  lemma {:induction false} ProperPrefixLoses(s: string, n: nat)
    requires EndsSolid(s) && n < |s|
    ensures |NonSpace(s[..n])| < |NonSpace(s)|
  {
    var rest := s[n..|s| - 1];
    assert s == s[..n] + (rest + [s[|s| - 1]]);
    NonSpaceConcat(s[..n], rest + [s[|s| - 1]]);
    assert (rest + [s[|s| - 1]])[..|rest|] == rest;
  }

  lemma TakeLoses(s: string, n: int)
    requires EndsSolid(s) && n < |s|
    ensures |NonSpace(Take(s, n))| < |NonSpace(s)|
  {
    ProperPrefixLoses(s, |Take(s, n)|);
  }

  lemma {:induction false} ConcatSnoc(pieces: seq<string>, last: string)
    ensures Concat(pieces + [last]) == Concat(pieces) + last
  {
  }

  lemma ConcatOne(piece: string)
    ensures Concat([piece]) == piece
  {
  }

  lemma {:induction false} ConcatConcat(a: seq<string>, b: seq<string>)
    ensures Concat(a + b) == Concat(a) + Concat(b)
  {
    if b == [] {
      assert a + b == a;
    } else {
      assert a + b == (a + b[..|b| - 1]) + [b[|b| - 1]];
      ConcatConcat(a, b[..|b| - 1]);
      ConcatSnoc(a + b[..|b| - 1], b[|b| - 1]);
    }
  }

  // ---------------------------------------------------------------- cutting keeps the text

  lemma {:induction false} CutConcat(text: string, n: nat)
    requires n <= |text|
    ensures Concat(Cut(text, n)) == text[..n]
  {
    if n > 0 {
      CutConcat(text, n - 1);
      var pieces, c := Cut(text, n - 1), text[n - 1];
      assert text[..n] == text[..n - 1] + [c];
      hide HeadingAt;
      if pieces == [] || HeadingAt(text, n - 1) {
        ConcatSnoc(pieces, [c]);
      } else {
        var front, last := pieces[..|pieces| - 1], pieces[|pieces| - 1];
        ConcatSnoc(front, last + [c]);
        Assoc(Concat(front), last, [c]);
      }
    }
  }

  lemma BlankAdds(s: string, n: nat)
    requires 0 < n <= |s| && s[n - 1] == '\n'
    ensures NonSpace(s[..n]) == NonSpace(s[..n - 1])
  {
    assert s[..n][..n - 1] == s[..n - 1] && s[..n][n - 1] == '\n' && IsSpace('\n');
  }

  lemma SeparatorIsBlank(s: string, i: nat)
    requires SeparatorAt(s, i)
    ensures s[i] == '\n'
  {
  }

  lemma SolidAdds(front: string, last: string, c: char, a: string)
    requires NonSpace(front + last) == NonSpace(a)
    ensures NonSpace(front + (last + [c])) == NonSpace(a + [c])
  {
    Assoc(front, last, [c]);
    NonSpaceConcat(front + last, [c]);
    NonSpaceConcat(a, [c]);
  }

  lemma SplitAfterSeparator(s: string, n: nat)
    requires 0 < n <= |s| && SeparatorAt(s, n - 1)
    ensures NonSpace(Concat(SplitAtBlank(s, n))) == NonSpace(Concat(SplitAtBlank(s, n - 1)))
    ensures NonSpace(s[..n]) == NonSpace(s[..n - 1])
  {
    SeparatorIsBlank(s, n - 1);
    BlankAdds(s, n);
    ConcatSnoc(SplitAtBlank(s, n - 1), "");
    Assoc(Concat(SplitAtBlank(s, n - 1)), "", "");
    hide NonSpace, Concat, SeparatorAt;
  }

  lemma SplitOther(s: string, n: nat)
    requires 0 < n <= |s| && !SeparatorAt(s, n - 1)
    ensures var pieces := SplitAtBlank(s, n - 1);
      && SplitAtBlank(s, n) == pieces[..|pieces| - 1] + [pieces[|pieces| - 1] + [s[n - 1]]]
      && Concat(pieces) == Concat(pieces[..|pieces| - 1]) + pieces[|pieces| - 1]
      && s[..n] == s[..n - 1] + [s[n - 1]]
  {
    hide SeparatorAt;
  }

  lemma SplitAfterOther(s: string, n: nat)
    requires 0 < n <= |s| && !SeparatorAt(s, n - 1)
    requires NonSpace(Concat(SplitAtBlank(s, n - 1))) == NonSpace(s[..n - 1])
    ensures NonSpace(Concat(SplitAtBlank(s, n))) == NonSpace(s[..n])
  {
    hide *;
    SplitOther(s, n);
    var pieces, c := SplitAtBlank(s, n - 1), s[n - 1];
    var front, last := pieces[..|pieces| - 1], pieces[|pieces| - 1];
    ConcatSnoc(front, last + [c]);
    SolidAdds(Concat(front), last, c, s[..n - 1]);
  }

  lemma {:induction false} SplitAtBlankKeeps(s: string, n: nat)
    requires n <= |s|
    ensures NonSpace(Concat(SplitAtBlank(s, n))) == NonSpace(s[..n])
  {
    if n > 0 {
      hide NonSpace, Concat, SplitAtBlank, SeparatorAt;
      SplitAtBlankKeeps(s, n - 1);
      if SeparatorAt(s, n - 1) {
        SplitAfterSeparator(s, n);
      } else {
        SplitAfterOther(s, n);
      }
    }
  }

  lemma {:induction false} StrippedKeeps(pieces: seq<string>)
    ensures NonSpace(Concat(Stripped(pieces))) == NonSpace(Concat(pieces))
    ensures forall p :: p in Stripped(pieces) ==> EndsSolid(p)
  {
    if pieces != [] {
      var front, last := pieces[..|pieces| - 1], pieces[|pieces| - 1];
      StrippedKeeps(front);
      StripKeeps(last);
      NonSpaceConcat(Concat(front), last);
      NonSpaceConcat(Concat(Stripped(front)), Strip(last));
      ConcatSnoc(Stripped(front), Strip(last));
      assert NonSpace("") == "" && NonSpace(Concat(front)) + "" == NonSpace(Concat(front));
      hide NonSpace, Strip, EndsSolid;
    }
  }

  lemma SectionsKeep(text: string)
    ensures NonSpace(Concat(Sections(text))) == NonSpace(text)
    ensures forall s :: s in Sections(text) ==> EndsSolid(s)
  {
    CutConcat(text, |text|);
    assert text[..|text|] == text;
    StrippedKeeps(Cut(text, |text|));
  }

  lemma ParagraphsKeep(section: string)
    ensures NonSpace(Concat(Paragraphs(section))) == NonSpace(section)
    ensures forall p :: p in Paragraphs(section) ==> EndsSolid(p)
  {
    SplitAtBlankKeeps(section, |section|);
    assert section[..|section|] == section;
    StrippedKeeps(SplitAtBlank(section, |section|));
  }

  // ---------------------------------------------------------------- conservation

  /** Everything a state holds, finished or waiting. */
  function Held(st: Buffered): string {
    NonSpace(Concat(st.chunks)) + NonSpace(st.buffer)
  }

  lemma FlushedHolds(chunks: seq<string>, buffer: string)
    ensures NonSpace(Concat(Flushed(chunks, buffer))) == NonSpace(Concat(chunks)) + NonSpace(buffer)
  {
    if buffer != "" {
      ConcatSnoc(chunks, buffer);
      NonSpaceConcat(Concat(chunks), buffer);
    }
  }

  lemma BlankLineVanishes()
    ensures NonSpace("\n\n") == ""
  {
  }

  lemma JoinedHolds(buffer: string, more: string)
    ensures NonSpace(Joined(buffer, more)) == NonSpace(buffer) + NonSpace(more)
  {
    if buffer != "" {
      StripKeeps(buffer + "\n\n" + more);
      NonSpaceConcat(buffer + "\n\n", more);
      NonSpaceConcat(buffer, "\n\n");
      BlankLineVanishes();
      Assoc(NonSpace(buffer), "", "");
      hide Strip, NonSpace, EndsSolid;
    }
  }

  lemma PackParagraphHolds(st: Buffered, para: string, maxChars: int)
    requires EndsSolid(para)
    ensures |para| <= maxChars ==> Held(PackParagraph(st, para, maxChars)) == Held(st) + NonSpace(para)
    ensures maxChars < |para| ==> |Held(PackParagraph(st, para, maxChars))| < |Held(st)| + |NonSpace(para)|
  {
    JoinedHolds(st.buffer, para);
    FlushedHolds(st.chunks, st.buffer);
    if maxChars < |para| {
      TakeLoses(para, maxChars);
    }
    Assoc(NonSpace(Concat(st.chunks)), NonSpace(st.buffer), NonSpace(para));
    hide NonSpace, Concat, Flushed, Joined, EndsSolid, Take;
  }

  predicate AllFit(paras: seq<string>, maxChars: int) {
    forall p :: p in paras ==> |p| <= maxChars
  }

  lemma {:induction false} PackParagraphsHolds(paras: seq<string>, maxChars: int)
    requires forall p :: p in paras ==> EndsSolid(p)
    ensures AllFit(paras, maxChars) ==> Held(PackParagraphs(paras, maxChars)) == NonSpace(Concat(paras))
    ensures !AllFit(paras, maxChars) ==> |Held(PackParagraphs(paras, maxChars))| < |NonSpace(Concat(paras))|
  {
    if paras != [] {
      var front, last := paras[..|paras| - 1], paras[|paras| - 1];
      assert paras == front + [last];
      assert last in paras;
      PackParagraphsHolds(front, maxChars);
      PackParagraphHolds(PackParagraphs(front, maxChars), last, maxChars);
      NonSpaceConcat(Concat(front), last);
    }
  }

  /** An oversized section keeps everything when each of its paragraphs fits, and otherwise loses something. */
  lemma SplitLargeHolds(section: string, maxChars: int)
    requires EndsSolid(section) && maxChars < |section|
    ensures AllFit(Paragraphs(section), maxChars) ==>
      NonSpace(Concat(SplitLarge(section, maxChars))) == NonSpace(section)
    ensures !AllFit(Paragraphs(section), maxChars) ==>
      |NonSpace(Concat(SplitLarge(section, maxChars)))| < |NonSpace(section)|
  {
    var paras := Paragraphs(section);
    var st := PackParagraphs(paras, maxChars);
    ParagraphsKeep(section);
    PackParagraphsHolds(paras, maxChars);
    FlushedHolds(st.chunks, st.buffer);
    TakeLoses(section, maxChars);
    ConcatOne(Take(section, maxChars));
    if Flushed(st.chunks, st.buffer) == [] {
      assert Held(st) == "";
    }
    hide NonSpace, Concat, Flushed, Paragraphs, PackParagraphs, AllFit, EndsSolid, Take;
  }

  /** The section is split by paragraphs and one of them is too long to be a chunk. */
  predicate Truncated(section: string, maxChars: int, minSection: int) {
    minSection <= |section| && maxChars < |section| && !AllFit(Paragraphs(section), maxChars)
  }

  lemma AppendedHolds(chunks: seq<string>, buffer: string, more: seq<string>)
    ensures NonSpace(Concat(Flushed(chunks, buffer) + more)) ==
      NonSpace(Concat(chunks)) + NonSpace(buffer) + NonSpace(Concat(more))
  {
    FlushedHolds(chunks, buffer);
    ConcatConcat(Flushed(chunks, buffer), more);
    NonSpaceConcat(Concat(Flushed(chunks, buffer)), Concat(more));
  }

  lemma TinySectionHolds(st: Buffered, section: string, maxChars: int, minSection: int)
    requires |section| < minSection
    ensures Held(PackSection(st, section, maxChars, minSection)) == Held(st) + NonSpace(section)
  {
    JoinedHolds(st.buffer, section);
    ConcatSnoc(st.chunks, st.buffer);
    NonSpaceConcat(Concat(st.chunks), st.buffer);
    var joined, next := Joined(st.buffer, section), PackSection(st, section, maxChars, minSection);
    assert next ==
      if |joined| <= maxChars then Buffered(st.chunks, joined) else Buffered(st.chunks + [st.buffer], section);
    Assoc(NonSpace(Concat(st.chunks)), NonSpace(st.buffer), NonSpace(section));
    hide NonSpace, Concat, Joined, PackSection;
  }

  lemma PackSectionHolds(st: Buffered, section: string, maxChars: int, minSection: int)
    requires EndsSolid(section)
    ensures !Truncated(section, maxChars, minSection) ==>
      Held(PackSection(st, section, maxChars, minSection)) == Held(st) + NonSpace(section)
    ensures Truncated(section, maxChars, minSection) ==>
      |Held(PackSection(st, section, maxChars, minSection))| < |Held(st)| + |NonSpace(section)|
  {
    if |section| < minSection {
      TinySectionHolds(st, section, maxChars, minSection);
    } else {
      LongSectionHolds(st, section, maxChars, minSection);
      if |section| > maxChars {
        SplitLargeHolds(section, maxChars);
      }
      hide NonSpace, Concat, PackSection, Held, SplitLarge, AllFit, Paragraphs, EndsSolid;
    }
  }

  lemma LongSectionHolds(st: Buffered, section: string, maxChars: int, minSection: int)
    requires minSection <= |section|
    ensures Held(PackSection(st, section, maxChars, minSection)) ==
      Held(st) + if |section| > maxChars then NonSpace(Concat(SplitLarge(section, maxChars))) else NonSpace(section)
  {
    var more := if |section| > maxChars then SplitLarge(section, maxChars) else [section];
    ConcatOne(section);
    AppendedHolds(st.chunks, st.buffer, more);
    assert PackSection(st, section, maxChars, minSection) == Buffered(Flushed(st.chunks, st.buffer) + more, "");
    assert NonSpace("") == "";
    Assoc(NonSpace(Concat(Flushed(st.chunks, st.buffer) + more)), "", "");
    hide NonSpace, Concat, Flushed, SplitLarge, PackSection;
  }

  lemma {:induction false} PackSectionsHolds(sections: seq<string>, maxChars: int, minSection: int)
    requires forall s :: s in sections ==> EndsSolid(s)
    ensures (forall s :: s in sections ==> !Truncated(s, maxChars, minSection)) ==>
      Held(PackSections(sections, maxChars, minSection)) == NonSpace(Concat(sections))
    ensures (exists s :: s in sections && Truncated(s, maxChars, minSection)) ==>
      |Held(PackSections(sections, maxChars, minSection))| < |NonSpace(Concat(sections))|
  {
    if sections != [] {
      var front, last := sections[..|sections| - 1], sections[|sections| - 1];
      assert sections == front + [last];
      assert last in sections;
      PackSectionsHolds(front, maxChars, minSection);
      PackSectionHolds(PackSections(front, maxChars, minSection), last, maxChars, minSection);
      NonSpaceConcat(Concat(front), last);
    }
  }

  lemma SolidIsKept(s: string)
    requires EndsSolid(s)
    ensures NonSpace(s) != ""
  {
  }

  lemma PackSectionYields(st: Buffered, section: string, maxChars: int, minSection: int)
    requires EndsSolid(section)
    ensures var next := PackSection(st, section, maxChars, minSection); Flushed(next.chunks, next.buffer) != []
  {
    if |section| < minSection {
      JoinedHolds(st.buffer, section);
      SolidIsKept(section);
      assert NonSpace(Joined(st.buffer, section)) != "";
    } else {
      hide PackParagraphs, Paragraphs;
    }
  }

  /**
   The chunks carry all characters of the text that are not whitespace, in order, exactly when no
   paragraph of a section that had to be split is longer than a chunk.
   */
  lemma Conservation(text: string, maxChars: int, minSection: int)
    ensures NonSpace(Concat(Chunks(text, maxChars, minSection))) == NonSpace(text)
      <==> forall s :: s in Sections(text) ==> !Truncated(s, maxChars, minSection)
  {
    var sections := Sections(text);
    var st := PackSections(sections, maxChars, minSection);
    SectionsKeep(text);
    PackSectionsHolds(sections, maxChars, minSection);
    FlushedHolds(st.chunks, st.buffer);
    if sections == [] {
      ConcatOne(Take(text, maxChars));
      TakeNoMore(text, maxChars);
      assert NonSpace(text) == "";
    } else {
      var last := sections[|sections| - 1];
      assert last in sections;
      PackSectionYields(PackSections(sections[..|sections| - 1], maxChars, minSection), last, maxChars, minSection);
      assert Chunks(text, maxChars, minSection) == Flushed(st.chunks, st.buffer);
    }
    hide NonSpace, Concat, Flushed, Sections, PackSections, Truncated, EndsSolid, Take;
  }

  lemma TakeNoMore(s: string, n: int)
    ensures |NonSpace(Take(s, n))| <= |NonSpace(s)|
  {
    var k := |Take(s, n)|;
    assert s == s[..k] + s[k..];
    NonSpaceConcat(s[..k], s[k..]);
  }

  lemma SolidPiecesShow(pieces: seq<string>)
    requires pieces != [] && forall p :: p in pieces ==> EndsSolid(p)
    ensures NonSpace(Concat(pieces)) != ""
  {
    var front, last := pieces[..|pieces| - 1], pieces[|pieces| - 1];
    assert last in pieces;
    SolidIsKept(last);
    NonSpaceConcat(Concat(front), last);
    hide NonSpace;
  }

  /** A text without anything but whitespace is one chunk, cut to size; only the empty text has none. */
  lemma BlankTextIsChunk(text: string, maxChars: int, minSection: int)
    requires NonSpace(text) == ""
    ensures text == "" ==> Chunks(text, maxChars, minSection) == []
    ensures text != "" && maxChars >= 0 ==>
      Chunks(text, maxChars, minSection) == [text[..if maxChars <= |text| then maxChars else |text|]]
  {
    SectionsKeep(text);
    hide Sections, NonSpace, Concat;
    if Sections(text) != [] {
      SolidPiecesShow(Sections(text));
    }
  }

  // ---------------------------------------------------------------- size

  predicate Fits(chunk: string, maxChars: int) {
    1 <= |chunk| <= maxChars
  }

  predicate AllChunksFit(chunks: seq<string>, maxChars: int) {
    forall c :: c in chunks ==> Fits(c, maxChars)
  }

  predicate StateFits(st: Buffered, maxChars: int) {
    AllChunksFit(st.chunks, maxChars) && (st.buffer == "" || Fits(st.buffer, maxChars))
  }

  lemma JoinedSize(buffer: string, more: string)
    requires EndsSolid(more)
    ensures 1 <= |Joined(buffer, more)| <= (if buffer == "" then |more| else |buffer| + 2 + |more|)
  {
    JoinedHolds(buffer, more);
    SolidIsKept(more);
    StripKeeps(buffer + "\n\n" + more);
    assert NonSpace(Joined(buffer, more)) != "";
  }

  lemma PackParagraphFits(st: Buffered, para: string, maxChars: int)
    requires StateFits(st, maxChars) && EndsSolid(para) && 1 <= maxChars
    ensures StateFits(PackParagraph(st, para, maxChars), maxChars)
  {
    JoinedSize(st.buffer, para);
    hide Joined;
  }

  lemma {:induction false} PackParagraphsFits(paras: seq<string>, maxChars: int)
    requires 1 <= maxChars && forall p :: p in paras ==> EndsSolid(p)
    ensures StateFits(PackParagraphs(paras, maxChars), maxChars)
  {
    if paras != [] {
      PackParagraphsFits(paras[..|paras| - 1], maxChars);
      assert paras[|paras| - 1] in paras;
      PackParagraphFits(PackParagraphs(paras[..|paras| - 1], maxChars), paras[|paras| - 1], maxChars);
    }
  }

  lemma SplitLargeFits(section: string, maxChars: int)
    requires 1 <= maxChars && section != ""
    ensures AllChunksFit(SplitLarge(section, maxChars), maxChars)
  {
    ParagraphsKeep(section);
    PackParagraphsFits(Paragraphs(section), maxChars);
    hide Paragraphs, PackParagraphs;
  }

  lemma PackSectionFits(st: Buffered, section: string, maxChars: int, minSection: int)
    requires StateFits(st, maxChars) && EndsSolid(section) && 1 <= maxChars && minSection <= maxChars + 1
    ensures StateFits(PackSection(st, section, maxChars, minSection), maxChars)
  {
    JoinedSize(st.buffer, section);
    SplitLargeFits(section, maxChars);
    hide Joined, SplitLarge;
  }

  lemma {:induction false} PackSectionsFits(sections: seq<string>, maxChars: int, minSection: int)
    requires 1 <= maxChars && minSection <= maxChars + 1 && forall s :: s in sections ==> EndsSolid(s)
    ensures StateFits(PackSections(sections, maxChars, minSection), maxChars)
  {
    if sections != [] {
      PackSectionsFits(sections[..|sections| - 1], maxChars, minSection);
      assert sections[|sections| - 1] in sections;
      var front := PackSections(sections[..|sections| - 1], maxChars, minSection);
      PackSectionFits(front, sections[|sections| - 1], maxChars, minSection);
    }
  }

  lemma ChunksFit(text: string, maxChars: int, minSection: int)
    requires 1 <= maxChars && minSection <= maxChars + 1
    ensures AllChunksFit(Chunks(text, maxChars, minSection), maxChars)
  {
    SectionsKeep(text);
    PackSectionsFits(Sections(text), maxChars, minSection);
    hide Sections, PackSections;
  }

  function Word(n: nat): string {
    seq(n, i => 'a')
  }

  lemma {:induction false} CutOfWord(n: nat, k: nat)
    requires 0 < k <= n
    ensures Cut(Word(n), k) == [Word(k)]
  {
    if k > 1 {
      CutOfWord(n, k - 1);
      assert [Word(k - 1)][..0] == [];
      assert Word(k - 1) + ['a'] == Word(k);
    } else {
      assert Word(1) == ['a'];
    }
  }

  lemma StrippedWord(n: nat)
    requires 0 < n
    ensures Stripped([Word(n)]) == [Word(n)]
  {
    var w := Word(n);
    assert LStrip(w) == w && RStrip(w) == w;
    hide LStrip, RStrip;
    assert [w][..0] == [];
    assert Stripped([w]) == [] + [w];
  }

  lemma SectionsOfWord(n: nat)
    requires 0 < n
    ensures Sections(Word(n)) == [Word(n)]
  {
    var w := Word(n);
    CutOfWord(n, n);
    StrippedWord(n);
  }

  /** A word that is short for a section but long for a chunk is kept whole, after an empty chunk. */
  lemma ShortSectionTooLong(n: nat, maxChars: int, minSection: int)
    requires 0 < n && maxChars < n < minSection
    ensures "" in Chunks(Word(n), maxChars, minSection)
  {
    var w := Word(n);
    SectionsOfWord(n);
    assert [w][..0] == [];
    assert PackSections([w], maxChars, minSection) == PackSection(Buffered([], ""), w, maxChars, minSection);
    hide Sections, PackSections;
    assert Chunks(w, maxChars, minSection) == [""] + [w];
  }

  lemma {:induction false} PiecesOfWord(n: nat, k: nat)
    requires k <= n
    ensures SplitAtBlank(Word(n), k) == [Word(k)]
  {
    if k > 0 {
      PiecesOfWord(n, k - 1);
      assert !SeparatorAt(Word(n), k - 1);
      assert Word(k - 1) + [Word(n)[k - 1]] == Word(k);
      assert [Word(k - 1)][..0] == [];
    } else {
      assert Word(0) == "";
    }
  }

  lemma ParagraphsOfWord(n: nat)
    requires 0 < n
    ensures Paragraphs(Word(n)) == [Word(n)]
  {
    PiecesOfWord(n, n);
    StrippedWord(n);
  }

  /** Whatever the limits, some text loses characters: any word too long for a chunk and long enough for a section. */
  lemma LongWordIsCut(n: nat, maxChars: int, minSection: int)
    requires 0 < n && maxChars < n && minSection <= n
    ensures NonSpace(Concat(Chunks(Word(n), maxChars, minSection))) != NonSpace(Word(n))
  {
    SectionsOfWord(n);
    ParagraphsOfWord(n);
    Conservation(Word(n), maxChars, minSection);
    assert Word(n) in [Word(n)] && |Word(n)| == n;
    assert Word(n) in Sections(Word(n)) && Truncated(Word(n), maxChars, minSection);
  }

  /** So does a word of 801 letters under the default limits. */
  lemma DefaultLimitsCut()
    ensures NonSpace(Concat(Chunks(Word(801), 800, 60))) != NonSpace(Word(801))
  {
    LongWordIsCut(801, 800, 60);
  }

  lemma SplitOfLetter(maxChars: int)
    requires maxChars <= 0
    ensures SplitLarge(Word(1), maxChars) == [""]
  {
    var w := Word(1);
    ParagraphsOfWord(1);
    hide Paragraphs;
    assert [w][..0] == [];
    assert PackParagraphs([w], maxChars) == PackParagraph(Buffered([], ""), w, maxChars);
  }

  /** With no room for a single character, a section of one letter becomes an empty chunk. */
  lemma NoRoomAtAll(maxChars: int, minSection: int)
    requires maxChars <= 0 && minSection <= 1
    ensures "" in Chunks(Word(1), maxChars, minSection)
  {
    var w := Word(1);
    SectionsOfWord(1);
    SplitOfLetter(maxChars);
    hide Sections, SplitLarge, Strip;
    assert [w][..0] == [];
    assert PackSections([w], maxChars, minSection) == PackSection(Buffered([], ""), w, maxChars, minSection);
    assert PackSections([w], maxChars, minSection).chunks == [] + [""];
  }

  /**
   No chunk of any text is empty or too long, exactly when a chunk has room for a character and every section
   too short to stand alone.
   */
  lemma ChunksAlwaysFit(maxChars: int, minSection: int)
    ensures (forall text :: AllChunksFit(Chunks(text, maxChars, minSection), maxChars))
      <==> 1 <= maxChars && minSection <= maxChars + 1
  {
    if 1 <= maxChars && minSection <= maxChars + 1 {
      forall text ensures AllChunksFit(Chunks(text, maxChars, minSection), maxChars) {
        ChunksFit(text, maxChars, minSection);
      }
    } else {
      var n := if maxChars <= 0 then 1 else maxChars + 1;
      if n < minSection {
        ShortSectionTooLong(n, maxChars, minSection);
      } else {
        NoRoomAtAll(maxChars, minSection);
      }
      assert !Fits("", maxChars);
      assert !AllChunksFit(Chunks(Word(n), maxChars, minSection), maxChars);
    }
  }

  // ---------------------------------------------------------------- one chunk per section

  lemma PackSectionAdds(st: Buffered, section: string, maxChars: int, minSection: int)
    ensures st.chunks <= PackSection(st, section, maxChars, minSection).chunks
    ensures minSection <= |section| <= maxChars ==> section in PackSection(st, section, maxChars, minSection).chunks
  {
  }

  /** A section of ordinary size is a chunk of its own. */
  lemma {:induction false} OrdinarySectionIsChunk(sections: seq<string>, k: nat, maxChars: int, minSection: int)
    requires k < |sections| && minSection <= |sections[k]| <= maxChars
    ensures sections[k] in PackSections(sections, maxChars, minSection).chunks
  {
    var front, last := sections[..|sections| - 1], sections[|sections| - 1];
    PackSectionAdds(PackSections(front, maxChars, minSection), last, maxChars, minSection);
    hide PackSection;
    if k < |front| {
      OrdinarySectionIsChunk(front, k, maxChars, minSection);
    }
  }

  lemma SectionIsChunk(text: string, section: string, maxChars: int, minSection: int)
    requires section in Sections(text) && minSection <= |section| <= maxChars
    ensures section in Chunks(text, maxChars, minSection)
  {
    var k :| 0 <= k < |Sections(text)| && Sections(text)[k] == section;
    OrdinarySectionIsChunk(Sections(text), k, maxChars, minSection);
  }

  /** Where the `k`-th piece begins. */
  function Offset(pieces: seq<string>, k: nat): nat
    requires k <= |pieces|
  {
    |Concat(pieces[..k])|
  }

  /** One more character: where the pieces begin does not change, but for a piece that begins at it. */
  lemma OffsetsAfter(text: string, n: nat, k: nat)
    requires 1 < n <= |text| && 0 < k < |Cut(text, n)|
    ensures if k == |Cut(text, n - 1)| then HeadingAt(text, n - 1) && Offset(Cut(text, n), k) == n - 1
            else k < |Cut(text, n - 1)| && Offset(Cut(text, n), k) == Offset(Cut(text, n - 1), k) < n - 1
  {
    var pieces, next := Cut(text, n - 1), Cut(text, n);
    CutConcat(text, n - 1);
    CutNotEmpty(text, n - 1);
    hide HeadingAt, Concat;
    if k == |pieces| {
      assert next[..k] == pieces;
    } else {
      assert next[..k] == pieces[..k];
      OffsetInside(pieces, k);
    }
  }

  lemma {:induction false} CutNotEmpty(text: string, n: nat)
    requires n <= |text|
    ensures forall k :: 0 <= k < |Cut(text, n)| ==> Cut(text, n)[k] != ""
    ensures 0 < n ==> Cut(text, n) != []
  {
    if n > 0 {
      CutNotEmpty(text, n - 1);
      hide HeadingAt;
    }
  }

  ghost predicate PieceBeginsAt(pieces: seq<string>, i: nat) {
    exists k :: 0 < k < |pieces| && Offset(pieces, k) == i
  }

  lemma CutLength(text: string, n: nat)
    requires 1 < n <= |text|
    ensures |Cut(text, n)| == |Cut(text, n - 1)| + if HeadingAt(text, n - 1) then 1 else 0
  {
  }

  lemma {:induction false} PieceBeginsAtHeading(text: string, n: nat, k: nat)
    requires 0 < n <= |text| && 0 < k < |Cut(text, n)|
    ensures 0 < Offset(Cut(text, n), k) < n && HeadingAt(text, Offset(Cut(text, n), k))
  {
    if n > 1 {
      hide HeadingAt, Cut, Offset;
      OffsetsAfter(text, n, k);
      if k < |Cut(text, n - 1)| {
        PieceBeginsAtHeading(text, n - 1, k);
      }
    }
  }

  lemma {:induction false} HeadingBeginsPiece(text: string, n: nat, i: nat) returns (k: nat)
    requires 0 < i < n <= |text| && HeadingAt(text, i)
    ensures 0 < k < |Cut(text, n)| && Offset(Cut(text, n), k) == i
  {
    hide HeadingAt, Cut, Offset;
    CutLength(text, n);
    CutNotEmpty(text, n - 1);
    if i < n - 1 {
      k := HeadingBeginsPiece(text, n - 1, i);
    } else {
      k := |Cut(text, n - 1)|;
    }
    OffsetsAfter(text, n, k);
  }

  /**
   The text is cut exactly at its headings: a piece other than the first begins at every heading, and nowhere
   else.
   */
  lemma CutsAreHeadings(text: string, i: nat)
    requires 0 < i < |text|
    ensures PieceBeginsAt(Cut(text, |text|), i) <==>
      text[i - 1] == '\n' &&
      (StartsWith(text[i..], "# ") || StartsWith(text[i..], "## ") || StartsWith(text[i..], "### "))
  {
    HeadingExact(text, i);
    hide HeadingAt, Cut, Offset;
    if HeadingAt(text, i) {
      var k := HeadingBeginsPiece(text, |text|, i);
    }
    if k :| 0 < k < |Cut(text, |text|)| && Offset(Cut(text, |text|), k) == i {
      PieceBeginsAtHeading(text, |text|, k);
    }
  }

  lemma HashesExact(text: string, i: nat, n: nat)
    requires i <= |text| && 1 <= n <= 3
    ensures HashesAt(text, i, n) <==> StartsWith(text[i..], if n == 1 then "# " else if n == 2 then "## " else "### ")
  {
    if i + n < |text| {
      var head := text[i..][..n + 1];
      assert head[0] == text[i] && head[1] == text[i + 1] && (n >= 2 ==> head[2] == text[i + 2])
        && (n >= 3 ==> head[3] == text[i + 3]);
    }
  }

  lemma HeadingExact(text: string, i: nat)
    requires 0 < i < |text|
    ensures HeadingAt(text, i) <==>
      text[i - 1] == '\n' &&
      (StartsWith(text[i..], "# ") || StartsWith(text[i..], "## ") || StartsWith(text[i..], "### "))
  {
    HashesExact(text, i, 1);
    HashesExact(text, i, 2);
    HashesExact(text, i, 3);
    hide HashesAt, StartsWith;
  }

  /** A separator is a newline of a blank line. */
  lemma SeparatorExact(s: string, i: nat)
    ensures SeparatorAt(s, i) <==> (i + 2 <= |s| && s[i..i + 2] == "\n\n") || (0 < i < |s| && s[i - 1..i + 1] == "\n\n")
  {
    if i + 2 <= |s| {
      assert s[i..i + 2][0] == s[i] && s[i..i + 2][1] == s[i + 1];
    }
    if 0 < i < |s| {
      assert s[i - 1..i + 1][0] == s[i - 1] && s[i - 1..i + 1][1] == s[i];
    }
  }

  lemma OffsetInside(pieces: seq<string>, k: nat)
    requires 0 < k < |pieces| && forall i :: 0 <= i < |pieces| ==> pieces[i] != ""
    ensures Offset(pieces, k) < |Concat(pieces)|
  {
    assert pieces == pieces[..k] + pieces[k..];
    ConcatConcat(pieces[..k], pieces[k..]);
    var rest := pieces[k..];
    assert Concat(rest) == Concat(rest[..|rest| - 1]) + rest[|rest| - 1];
  }

  // ---------------------------------------------------------------- paragraphs are the runs between blank lines

  /** `s[a..b]` is a longest stretch of `s[..n]` without a separator. */
  predicate IsRun(s: string, n: nat, a: nat, b: nat) {
    && a <= b <= n <= |s|
    && (a == 0 || SeparatorAt(s, a - 1)) && (b == n || SeparatorAt(s, b))
    && forall k :: a <= k < b ==> !SeparatorAt(s, k)
  }

  /** The start of the last run of `s[..n]`. */
  function RunStart(s: string, n: nat): (a: nat)
    requires n <= |s|
    ensures IsRun(s, n, a, n)
  {
    if n == 0 || SeparatorAt(s, n - 1) then n else RunStart(s, n - 1)
  }

  lemma {:induction false} LastPiece(s: string, n: nat)
    requires n <= |s|
    ensures SplitAtBlank(s, n)[|SplitAtBlank(s, n)| - 1] == s[RunStart(s, n)..n]
  {
    if n > 0 {
      LastPiece(s, n - 1);
      hide SeparatorAt;
      if !SeparatorAt(s, n - 1) {
        assert s[RunStart(s, n)..n] == s[RunStart(s, n)..n - 1] + [s[n - 1]];
      }
    }
  }

  lemma RunUnique(s: string, n: nat, a: nat, b: nat)
    requires IsRun(s, n, a, n) && IsRun(s, n, b, n)
    ensures a == b
  {
  }

  /** `piece` is a run that a separator ends. */
  ghost predicate EndedRun(s: string, piece: string) {
    exists a: nat, b: nat :: b < |s| && SeparatorAt(s, b) && IsRun(s, b, a, b) && piece == s[a..b]
  }

  lemma {:induction false} EarlierPieces(s: string, n: nat)
    requires n <= |s|
    ensures forall k :: 0 <= k < |SplitAtBlank(s, n)| - 1 ==> EndedRun(s, SplitAtBlank(s, n)[k])
  {
    if n > 0 {
      EarlierPieces(s, n - 1);
      LastPiece(s, n - 1);
      hide IsRun;
      if SeparatorAt(s, n - 1) {
        assert EndedRun(s, s[RunStart(s, n - 1)..n - 1]);
      }
      hide SeparatorAt, EndedRun;
    }
  }

  lemma {:induction false} EndedRunIsPiece(s: string, n: nat, a: nat, b: nat) returns (k: nat)
    requires n <= |s| && a < b < n && IsRun(s, n, a, b)
    ensures k < |SplitAtBlank(s, n)| - 1 && SplitAtBlank(s, n)[k] == s[a..b]
  {
    if b < n - 1 {
      k := EndedRunIsPiece(s, n - 1, a, b);
    } else {
      LastPiece(s, n - 1);
      RunUnique(s, n - 1, a, RunStart(s, n - 1));
      assert !SeparatorAt(s, b - 1);
      k := |SplitAtBlank(s, n - 1)| - 1;
    }
    hide SeparatorAt;
  }

  ghost predicate IsRunOf(s: string, piece: string) {
    exists a: nat, b: nat :: IsRun(s, |s|, a, b) && piece == s[a..b]
  }

  lemma PieceIsRun(s: string, k: nat)
    requires k < |SplitAtBlank(s, |s|)|
    ensures IsRunOf(s, SplitAtBlank(s, |s|)[k])
  {
    if k < |SplitAtBlank(s, |s|)| - 1 {
      EarlierPieces(s, |s|);
      var a: nat, b: nat :| b < |s| && SeparatorAt(s, b) && IsRun(s, b, a, b) && SplitAtBlank(s, |s|)[k] == s[a..b];
      assert IsRun(s, |s|, a, b);
    } else {
      LastPiece(s, |s|);
      assert IsRun(s, |s|, RunStart(s, |s|), |s|);
    }
  }

  lemma RunIsPiece(s: string, piece: string)
    requires IsRunOf(s, piece) && piece != ""
    ensures piece in SplitAtBlank(s, |s|)
  {
    var a: nat, b: nat :| IsRun(s, |s|, a, b) && piece == s[a..b];
    if b < |s| {
      var k := EndedRunIsPiece(s, |s|, a, b);
    } else {
      LastPiece(s, |s|);
      RunUnique(s, |s|, a, RunStart(s, |s|));
    }
  }

  /** What stands between blank lines is split off whole: the pieces are the longest stretches without a separator. */
  lemma PiecesAreRuns(s: string, piece: string)
    requires piece != ""
    ensures piece in SplitAtBlank(s, |s|) <==> IsRunOf(s, piece)
  {
    hide IsRunOf, SplitAtBlank;
    if IsRunOf(s, piece) {
      RunIsPiece(s, piece);
    }
    if k :| 0 <= k < |SplitAtBlank(s, |s|)| && SplitAtBlank(s, |s|)[k] == piece {
      PieceIsRun(s, k);
    }
  }

  // ---------------------------------------------------------------- packing is tight

  /** Begins and ends with a character that is not whitespace. */
  predicate Solid(s: string) {
    EndsSolid(s) && !IsSpace(s[0])
  }

  lemma {:induction false} RStripIsPrefix(s: string)
    ensures |RStrip(s)| <= |s| && RStrip(s) == s[..|RStrip(s)|]
  {
    if s != "" && IsSpace(s[|s| - 1]) {
      RStripIsPrefix(s[..|s| - 1]);
    }
  }

  lemma {:induction false} StrippedSolid(pieces: seq<string>)
    ensures forall p :: p in Stripped(pieces) ==> Solid(p)
  {
    if pieces != [] {
      var last := pieces[|pieces| - 1];
      StrippedSolid(pieces[..|pieces| - 1]);
      StripKeeps(last);
      LStripKeeps(last);
      RStripIsPrefix(LStrip(last));
    }
  }

  /** Two solid texts are joined by exactly one blank line. */
  lemma JoinedExact(buffer: string, more: string)
    requires Solid(buffer) && Solid(more)
    ensures Joined(buffer, more) == buffer + "\n\n" + more && Solid(Joined(buffer, more))
  {
  }

  /** Neighbouring chunks would not fit together. */
  predicate Tight(chunks: seq<string>, maxChars: int) {
    forall i :: 0 <= i < |chunks| - 1 ==> maxChars < |chunks[i]| + 2 + |chunks[i + 1]|
  }

  predicate TightState(st: Buffered, maxChars: int) {
    && Tight(st.chunks, maxChars)
    && (st.chunks != [] ==> st.buffer != "" && maxChars < |st.chunks[|st.chunks| - 1]| + 2 + |st.buffer|)
    && (st.buffer != "" ==> !IsSpace(st.buffer[0]))
    && (st.buffer != "" && |st.buffer| < maxChars ==> EndsSolid(st.buffer))
  }

  lemma PackParagraphTight(st: Buffered, para: string, maxChars: int)
    requires TightState(st, maxChars) && Solid(para) && 1 <= maxChars
    ensures TightState(PackParagraph(st, para, maxChars), maxChars)
  {
    if |st.buffer| + |para| + 2 <= maxChars {
      if st.buffer != "" {
        JoinedExact(st.buffer, para);
      }
    } else {
      hide EndsSolid;
      assert Tight(Flushed(st.chunks, st.buffer), maxChars);
    }
  }

  lemma {:induction false} PackParagraphsTight(paras: seq<string>, maxChars: int)
    requires 1 <= maxChars && forall p :: p in paras ==> Solid(p)
    ensures TightState(PackParagraphs(paras, maxChars), maxChars)
  {
    if paras != [] {
      PackParagraphsTight(paras[..|paras| - 1], maxChars);
      assert paras[|paras| - 1] in paras;
      PackParagraphTight(PackParagraphs(paras[..|paras| - 1], maxChars), paras[|paras| - 1], maxChars);
    }
  }

  /** A long section is not split more than it has to be: no two neighbouring parts would fit into one chunk. */
  lemma SplitLargeTight(section: string, maxChars: int)
    requires 1 <= maxChars
    ensures Tight(SplitLarge(section, maxChars), maxChars)
  {
    StrippedSolid(SplitAtBlank(section, |section|));
    PackParagraphsTight(Paragraphs(section), maxChars);
    hide Paragraphs, PackParagraphs, Take;
  }

  // ---------------------------------------------------------------- packing is greedy

  /** The pieces with a blank line between each two. */
  function JoinBlank(pieces: seq<string>): string {
    if pieces == [] then ""
    else if |pieces| == 1 then pieces[0]
    else JoinBlank(pieces[..|pieces| - 1]) + "\n\n" + pieces[|pieces| - 1]
  }

  /**
   The chunks are joined from neighbouring pieces, all pieces in order, chunk `k` from those between `cuts[k]` and
   `cuts[k + 1]`. Each chunk fits, and it would not if it took one piece more.
   */
  predicate GreedyAt(cuts: seq<nat>, pieces: seq<string>, chunks: seq<string>, maxChars: int) {
    && |cuts| == |chunks| + 1 && cuts[0] == 0 && cuts[|chunks|] == |pieces|
    && (forall k :: 0 <= k < |chunks| ==> JoinedFrom(pieces, cuts[k], cuts[k + 1], chunks[k], maxChars))
    && (forall k :: 0 <= k < |chunks| - 1 ==> NoRoomFor(pieces, cuts[k + 1], chunks[k], maxChars))
  }

  predicate JoinedFrom(pieces: seq<string>, from: nat, to: nat, chunk: string, maxChars: int) {
    from < to <= |pieces| && |chunk| <= maxChars && chunk == JoinBlank(pieces[from..to])
  }

  predicate NoRoomFor(pieces: seq<string>, next: nat, chunk: string, maxChars: int) {
    next < |pieces| && maxChars < |chunk| + 2 + |pieces[next]|
  }

  ghost predicate Greedy(pieces: seq<string>, chunks: seq<string>, maxChars: int) {
    exists cuts: seq<nat> :: GreedyAt(cuts, pieces, chunks, maxChars)
  }

  /** Every piece cut to the size of a chunk. */
  function Cropped(pieces: seq<string>, maxChars: int): seq<string> {
    seq(|pieces|, i requires 0 <= i < |pieces| =>
      if |pieces[i]| <= maxChars then pieces[i] else Take(pieces[i], maxChars))
  }

  lemma GreedyStart(piece: string, maxChars: int)
    requires |piece| <= maxChars
    ensures GreedyAt([0, 1], [piece], [piece], maxChars)
  {
    assert [piece][0..1] == [piece];
  }

  lemma EarlierPart(pieces: seq<string>, piece: string, from: nat, to: nat, chunk: string, maxChars: int)
    ensures JoinedFrom(pieces, from, to, chunk, maxChars) ==> JoinedFrom(pieces + [piece], from, to, chunk, maxChars)
    ensures NoRoomFor(pieces, to, chunk, maxChars) ==> NoRoomFor(pieces + [piece], to, chunk, maxChars)
  {
    if from < to <= |pieces| {
      assert (pieces + [piece])[from..to] == pieces[from..to];
    }
  }

  /** All chunks but the last stay as they are when a piece comes behind. */
  lemma EarlierParts(cuts: seq<nat>, cuts': seq<nat>, pieces: seq<string>, chunks: seq<string>, piece: string,
                     maxChars: int,
                     n: nat)
    requires GreedyAt(cuts, pieces, chunks, maxChars) && n <= |chunks| && n < |cuts'|
    requires forall k :: 0 <= k <= n ==> cuts'[k] == cuts[k]
    ensures forall k :: 0 <= k < n ==> JoinedFrom(pieces + [piece], cuts'[k], cuts'[k + 1], chunks[k], maxChars)
    ensures forall k :: 0 <= k < n && k < |chunks| - 1 ==>
      NoRoomFor(pieces + [piece], cuts'[k + 1], chunks[k], maxChars)
  {
    hide JoinedFrom, NoRoomFor;
    forall k | 0 <= k < n
      ensures JoinedFrom(pieces + [piece], cuts'[k], cuts'[k + 1], chunks[k], maxChars)
      ensures k < |chunks| - 1 ==> NoRoomFor(pieces + [piece], cuts'[k + 1], chunks[k], maxChars)
    {
      assert cuts'[k] == cuts[k] && cuts'[k + 1] == cuts[k + 1];
      EarlierPart(pieces, piece, cuts[k], cuts[k + 1], chunks[k], maxChars);
    }
  }

  /** One more piece that does not fit starts the next chunk. */
  lemma GreedyNext(cuts: seq<nat>, pieces: seq<string>, chunks: seq<string>, piece: string, maxChars: int)
    requires GreedyAt(cuts, pieces, chunks, maxChars) && chunks != []
    requires |piece| <= maxChars < |chunks[|chunks| - 1]| + 2 + |piece|
    ensures GreedyAt(cuts + [|pieces| + 1], pieces + [piece], chunks + [piece], maxChars)
  {
    var n, cuts', pieces', chunks' := |chunks|, cuts + [|pieces| + 1], pieces + [piece], chunks + [piece];
    EarlierParts(cuts, cuts', pieces, chunks, piece, maxChars, n);
    assert pieces'[|pieces|..|pieces| + 1] == [piece];
    assert JoinedFrom(pieces', cuts'[n], cuts'[n + 1], piece, maxChars);
    assert NoRoomFor(pieces', cuts'[n], chunks[n - 1], maxChars);
    hide JoinedFrom, NoRoomFor;
    forall k | 0 <= k < |chunks'|
      ensures JoinedFrom(pieces', cuts'[k], cuts'[k + 1], chunks'[k], maxChars)
      ensures k < |chunks'| - 1 ==> NoRoomFor(pieces', cuts'[k + 1], chunks'[k], maxChars)
    {
      assert k < n ==> chunks'[k] == chunks[k];
    }
  }

  /** One more piece that fits joins the last chunk. */
  lemma GreedyJoin(cuts: seq<nat>, pieces: seq<string>, chunks: seq<string>, piece: string, maxChars: int)
    requires GreedyAt(cuts, pieces, chunks, maxChars) && chunks != []
    requires |chunks[|chunks| - 1]| + 2 + |piece| <= maxChars
    ensures GreedyAt(cuts[..|chunks|] + [|pieces| + 1], pieces + [piece],
                     chunks[..|chunks| - 1] + [chunks[|chunks| - 1] + "\n\n" + piece], maxChars)
  {
    var n, last := |chunks| - 1, chunks[|chunks| - 1];
    var cuts', pieces' := cuts[..n + 1] + [|pieces| + 1], pieces + [piece];
    var joined := last + "\n\n" + piece;
    var chunks' := chunks[..n] + [joined];
    EarlierParts(cuts, cuts', pieces, chunks, piece, maxChars, n);
    assert JoinedFrom(pieces, cuts[n], cuts[n + 1], last, maxChars) && pieces[cuts[n]..|pieces|] == pieces[cuts[n]..];
    assert pieces'[cuts[n]..|pieces'|] == pieces[cuts[n]..] + [piece];
    JoinBlankSnoc(pieces[cuts[n]..], piece);
    assert JoinedFrom(pieces', cuts'[n], cuts'[n + 1], joined, maxChars);
    hide JoinedFrom, NoRoomFor;
    forall k | 0 <= k < |chunks'|
      ensures JoinedFrom(pieces', cuts'[k], cuts'[k + 1], chunks'[k], maxChars)
      ensures k < |chunks'| - 1 ==> NoRoomFor(pieces', cuts'[k + 1], chunks'[k], maxChars)
    {
      assert k < n ==> chunks'[k] == chunks[k];
    }
  }

  lemma JoinBlankSnoc(pieces: seq<string>, piece: string)
    requires pieces != []
    ensures JoinBlank(pieces + [piece]) == JoinBlank(pieces) + "\n\n" + piece
  {
    assert (pieces + [piece])[..|pieces|] == pieces;
  }

  /** While paragraphs are packed, finished chunks and buffer are a greedy packing; a buffer with room left is solid. */
  ghost predicate GreedyState(st: Buffered, pieces: seq<string>, maxChars: int) {
    if pieces == [] then st == Buffered([], "")
    else
      && Greedy(pieces, st.chunks + [st.buffer], maxChars)
      && st.buffer != "" && (|st.buffer| < maxChars ==> Solid(st.buffer))
  }

  lemma PackFirstGreedy(para: string, maxChars: int)
    requires Solid(para) && 1 <= maxChars
    ensures GreedyState(PackParagraph(Buffered([], ""), para, maxChars), Cropped([para], maxChars), maxChars)
  {
    var piece := Cropped([para], maxChars)[0];
    assert Cropped([para], maxChars) == [piece];
    GreedyStart(piece, maxChars);
    assert [] + [piece] == [piece];
    hide Solid, GreedyAt, Take;
  }

  lemma PackNextGreedy(st: Buffered, pieces: seq<string>, para: string, maxChars: int)
    requires GreedyState(st, pieces, maxChars) && Solid(para) && 1 <= maxChars && pieces != []
    ensures GreedyState(PackParagraph(st, para, maxChars), pieces + Cropped([para], maxChars), maxChars)
  {
    var piece, chunks := Cropped([para], maxChars)[0], st.chunks + [st.buffer];
    assert Cropped([para], maxChars) == [piece];
    var cuts: seq<nat> :| GreedyAt(cuts, pieces, chunks, maxChars);
    if |st.buffer| + |para| + 2 <= maxChars {
      JoinedExact(st.buffer, para);
      hide Solid, GreedyAt, Joined, Take;
      GreedyJoin(cuts, pieces, chunks, piece, maxChars);
      assert chunks[..|chunks| - 1] == st.chunks;
    } else {
      assert |piece| < maxChars ==> piece == para;
      hide Solid, GreedyAt, Joined, Cropped;
      GreedyNext(cuts, pieces, chunks, piece, maxChars);
    }
  }

  lemma {:induction false} PackParagraphsGreedy(paras: seq<string>, maxChars: int)
    requires 1 <= maxChars && forall p :: p in paras ==> Solid(p)
    ensures GreedyState(PackParagraphs(paras, maxChars), Cropped(paras, maxChars), maxChars)
  {
    if paras != [] {
      var front, last := paras[..|paras| - 1], paras[|paras| - 1];
      PackParagraphsGreedy(front, maxChars);
      assert last in paras;
      assert Cropped(paras, maxChars) == Cropped(front, maxChars) + Cropped([last], maxChars);
      if front == [] {
        assert Cropped(paras, maxChars) == Cropped([last], maxChars);
        PackFirstGreedy(last, maxChars);
      } else {
        PackNextGreedy(PackParagraphs(front, maxChars), Cropped(front, maxChars), last, maxChars);
      }
    }
  }

  /** The parts of a split section are the greedy packing of its paragraphs, each cut to the size of a chunk. */
  lemma SplitLargeIsGreedy(section: string, maxChars: int)
    requires 1 <= maxChars && Paragraphs(section) != []
    ensures Greedy(Cropped(Paragraphs(section), maxChars), SplitLarge(section, maxChars), maxChars)
  {
    StrippedSolid(SplitAtBlank(section, |section|));
    PackParagraphsGreedy(Paragraphs(section), maxChars);
    hide Paragraphs, PackParagraphs, Greedy;
  }

  lemma {:induction false} JoinBlankGrows(pieces: seq<string>, n: nat)
    requires 0 < n < |pieces|
    ensures |JoinBlank(pieces[..n])| + 2 + |pieces[n]| <= |JoinBlank(pieces)|
  {
    var front := pieces[..|pieces| - 1];
    if n < |front| {
      JoinBlankGrows(front, n);
      assert front[..n] == pieces[..n];
    }
  }

  lemma NoLongerChunk(cuts: seq<nat>, cuts': seq<nat>, pieces: seq<string>, chunks: seq<string>, chunks': seq<string>,
                      maxChars: int, k: nat)
    requires GreedyAt(cuts, pieces, chunks, maxChars) && GreedyAt(cuts', pieces, chunks', maxChars)
    requires k < |chunks| && k < |chunks'| && cuts[k] == cuts'[k]
    ensures cuts'[k + 1] <= cuts[k + 1]
  {
    assert JoinedFrom(pieces, cuts[k], cuts[k + 1], chunks[k], maxChars);
    assert JoinedFrom(pieces, cuts'[k], cuts'[k + 1], chunks'[k], maxChars);
    assert k < |chunks| - 1 ==> NoRoomFor(pieces, cuts[k + 1], chunks[k], maxChars);
    if cuts[k + 1] < cuts'[k + 1] {
      CutsRise(cuts, pieces, chunks, maxChars, k + 1);
      var longer, n := pieces[cuts[k]..cuts'[k + 1]], cuts[k + 1] - cuts[k];
      assert longer[..n] == pieces[cuts[k]..cuts[k + 1]] && longer[n] == pieces[cuts[k + 1]];
      JoinBlankGrows(longer, n);
    }
  }

  lemma CutsRise(cuts: seq<nat>, pieces: seq<string>, chunks: seq<string>, maxChars: int, k: nat)
    requires GreedyAt(cuts, pieces, chunks, maxChars) && k <= |chunks|
    ensures k == |chunks| <==> cuts[k] == |pieces|
  {
    if k < |chunks| {
      assert JoinedFrom(pieces, cuts[k], cuts[k + 1], chunks[k], maxChars);
      assert k < |chunks| - 1 ==> NoRoomFor(pieces, cuts[k + 1], chunks[k], maxChars);
    }
  }

  lemma {:induction false} GreedyPrefix(cuts: seq<nat>, cuts': seq<nat>, pieces: seq<string>, chunks: seq<string>,
                                        chunks': seq<string>, maxChars: int, k: nat)
    requires GreedyAt(cuts, pieces, chunks, maxChars) && GreedyAt(cuts', pieces, chunks', maxChars)
    requires k <= |chunks|
    ensures k <= |chunks'| && cuts[k] == cuts'[k] && chunks[..k] == chunks'[..k]
  {
    if k > 0 {
      GreedyPrefix(cuts, cuts', pieces, chunks, chunks', maxChars, k - 1);
      CutsRise(cuts, pieces, chunks, maxChars, k - 1);
      CutsRise(cuts', pieces, chunks', maxChars, k - 1);
      NoLongerChunk(cuts, cuts', pieces, chunks, chunks', maxChars, k - 1);
      NoLongerChunk(cuts', cuts, pieces, chunks', chunks, maxChars, k - 1);
      assert JoinedFrom(pieces, cuts[k - 1], cuts[k], chunks[k - 1], maxChars);
      assert JoinedFrom(pieces, cuts'[k - 1], cuts'[k], chunks'[k - 1], maxChars);
      hide GreedyAt;
      assert chunks[..k] == chunks[..k - 1] + [chunks[k - 1]] && chunks'[..k] == chunks'[..k - 1] + [chunks'[k - 1]];
    }
  }

  /** There is only one greedy packing. */
  lemma GreedyUnique(pieces: seq<string>, chunks: seq<string>, chunks': seq<string>, maxChars: int)
    requires Greedy(pieces, chunks, maxChars) && Greedy(pieces, chunks', maxChars)
    ensures chunks == chunks'
  {
    var cuts: seq<nat> :| GreedyAt(cuts, pieces, chunks, maxChars);
    var cuts': seq<nat> :| GreedyAt(cuts', pieces, chunks', maxChars);
    GreedyPrefix(cuts, cuts', pieces, chunks, chunks', maxChars, |chunks|);
    CutsRise(cuts', pieces, chunks', maxChars, |chunks|);
    assert chunks[..|chunks|] == chunks && chunks'[..|chunks'|] == chunks';
  }

  // ---------------------------------------------------------------- short sections are merged greedily

  /** The chunks of a list of sections. */
  function ChunksOf(sections: seq<string>, maxChars: int, minSection: int): seq<string> {
    var st := PackSections(sections, maxChars, minSection);
    Flushed(st.chunks, st.buffer)
  }

  predicate AllShort(sections: seq<string>, minSection: int) {
    forall s :: s in sections ==> |s| < minSection
  }

  /** On short sections the merging takes the same steps as the packing of paragraphs. */
  lemma {:induction false} ShortLikeParagraphs(run: seq<string>, maxChars: int, minSection: int)
    requires AllShort(run, minSection) && minSection <= maxChars + 1 && forall s :: s in run ==> Solid(s)
    ensures PackSections(run, maxChars, minSection) == PackParagraphs(run, maxChars)
    ensures run != [] ==> Solid(PackParagraphs(run, maxChars).buffer)
    ensures run == [] ==> PackParagraphs(run, maxChars) == Buffered([], "")
  {
    if run != [] {
      var front, last := run[..|run| - 1], run[|run| - 1];
      assert last in run;
      ShortLikeParagraphs(front, maxChars, minSection);
      var st := PackSections(front, maxChars, minSection);
      if front != [] {
        JoinedExact(st.buffer, last);
      }
      hide Solid, Strip;
    }
  }

  /** Packing goes on after sections that left nothing in the buffer as it would from the start. */
  lemma {:induction false} PackShift(before: seq<string>, rest: seq<string>, maxChars: int, minSection: int)
    requires PackSections(before, maxChars, minSection).buffer == ""
    ensures var st := PackSections(rest, maxChars, minSection);
      PackSections(before + rest, maxChars, minSection) ==
        Buffered(PackSections(before, maxChars, minSection).chunks + st.chunks, st.buffer)
  {
    if rest == [] {
      assert before + rest == before;
    } else {
      var front, last := rest[..|rest| - 1], rest[|rest| - 1];
      PackShift(before, front, maxChars, minSection);
      assert (before + rest)[..|before + rest| - 1] == before + front;
      ShiftStep(PackSections(before, maxChars, minSection).chunks, PackSections(front, maxChars, minSection), last,
                maxChars, minSection);
    }
  }

  lemma ShiftStep(chunks: seq<string>, st: Buffered, section: string, maxChars: int, minSection: int)
    ensures var next := PackSection(st, section, maxChars, minSection);
      PackSection(Buffered(chunks + st.chunks, st.buffer), section, maxChars, minSection) ==
        Buffered(chunks + next.chunks, next.buffer)
  {
    hide Joined, SplitLarge;
  }

  predicate Ordinary(section: string, minSection: int) {
    minSection <= |section|
  }

  /** Before the first section, behind the last one, and next to an ordinary section, merging stops. */
  predicate Boundary(sections: seq<string>, i: nat, minSection: int) {
    && i <= |sections|
    && (i == 0 || i == |sections| || Ordinary(sections[i - 1], minSection) || Ordinary(sections[i], minSection))
  }

  lemma FlushedLast(chunks: seq<string>, more: seq<string>, buffer: string)
    ensures Flushed(chunks + more, buffer) == chunks + Flushed(more, buffer)
  {
  }

  lemma SplitAfterFlush(before: seq<string>, rest: seq<string>, maxChars: int, minSection: int)
    requires PackSections(before, maxChars, minSection).buffer == ""
    ensures ChunksOf(before + rest, maxChars, minSection) ==
      ChunksOf(before, maxChars, minSection) + ChunksOf(rest, maxChars, minSection)
  {
    PackShift(before, rest, maxChars, minSection);
    hide PackSections;
    var st := PackSections(rest, maxChars, minSection);
    FlushedLast(PackSections(before, maxChars, minSection).chunks, st.chunks, st.buffer);
  }

  lemma SplitAfterOrdinary(before: seq<string>, section: string, rest: seq<string>, maxChars: int, minSection: int)
    requires Ordinary(section, minSection)
    ensures ChunksOf(before + [section] + rest, maxChars, minSection) ==
      ChunksOf(before, maxChars, minSection) + Alone(section, maxChars) + ChunksOf(rest, maxChars, minSection)
  {
    OrdinaryNext(before, section, maxChars, minSection);
    hide PackSections, Alone;
    SplitAfterFlush(before + [section], rest, maxChars, minSection);
  }

  lemma AssocChunks(a: seq<string>, b: seq<string>, c: seq<string>)
    ensures a + b + c == a + (b + c)
  {
  }

  lemma SplitBeforeOrdinary(before: seq<string>, section: string, rest: seq<string>, maxChars: int, minSection: int)
    requires Ordinary(section, minSection)
    ensures ChunksOf(before + ([section] + rest), maxChars, minSection) ==
      ChunksOf(before, maxChars, minSection) + ChunksOf([section] + rest, maxChars, minSection)
  {
    assert before + ([section] + rest) == before + [section] + rest;
    assert [] + [section] + rest == [section] + rest;
    assert ChunksOf([], maxChars, minSection) == [];
    hide ChunksOf, Alone;
    SplitAfterOrdinary(before, section, rest, maxChars, minSection);
    SplitAfterOrdinary([], section, rest, maxChars, minSection);
    AssocChunks(ChunksOf(before, maxChars, minSection), Alone(section, maxChars), ChunksOf(rest, maxChars, minSection));
    AssocChunks([], Alone(section, maxChars), ChunksOf(rest, maxChars, minSection));
    assert [] + Alone(section, maxChars) == Alone(section, maxChars);
  }

  /** At such a place the chunks are those of the sections before and of the sections behind it. */
  lemma SplitAtBoundary(sections: seq<string>, i: nat, maxChars: int, minSection: int)
    requires Boundary(sections, i, minSection)
    ensures ChunksOf(sections, maxChars, minSection) ==
      ChunksOf(sections[..i], maxChars, minSection) + ChunksOf(sections[i..], maxChars, minSection)
  {
    assert ChunksOf([], maxChars, minSection) == [];
    hide ChunksOf;
    if i == 0 {
      assert sections[..0] == [] && sections[0..] == sections;
      assert [] + ChunksOf(sections, maxChars, minSection) == ChunksOf(sections, maxChars, minSection);
    } else if i == |sections| {
      assert sections[..i] == sections && sections[i..] == [];
      assert ChunksOf(sections, maxChars, minSection) + [] == ChunksOf(sections, maxChars, minSection);
    } else if Ordinary(sections[i], minSection) {
      assert sections == sections[..i] + ([sections[i]] + sections[i + 1..]);
      assert sections[i..] == [sections[i]] + sections[i + 1..];
      SplitBeforeOrdinary(sections[..i], sections[i], sections[i + 1..], maxChars, minSection);
    } else {
      assert sections == sections[..i] + sections[i..] && sections[..i] == sections[..i - 1] + [sections[i - 1]];
      OrdinaryNext(sections[..i - 1], sections[i - 1], maxChars, minSection);
      SplitAfterFlush(sections[..i], sections[i..], maxChars, minSection);
    }
  }

  /** What becomes of an ordinary section. */
  function Alone(section: string, maxChars: int): seq<string> {
    if |section| > maxChars then SplitLarge(section, maxChars) else [section]
  }

  lemma OrdinaryNext(before: seq<string>, section: string, maxChars: int, minSection: int)
    requires Ordinary(section, minSection)
    ensures PackSections(before + [section], maxChars, minSection) ==
      Buffered(ChunksOf(before, maxChars, minSection) + Alone(section, maxChars), "")
  {
    assert (before + [section])[..|before|] == before;
    hide SplitLarge;
  }

  lemma ChunksAreOfSections(text: string, maxChars: int, minSection: int)
    requires Sections(text) != []
    ensures Chunks(text, maxChars, minSection) == ChunksOf(Sections(text), maxChars, minSection)
  {
    var sections := Sections(text);
    SectionsKeep(text);
    assert sections[|sections| - 1] in sections;
    PackSectionYields(PackSections(sections[..|sections| - 1], maxChars, minSection), sections[|sections| - 1],
                      maxChars, minSection);
    hide Sections, PackSection;
  }

  lemma SectionsSolid(text: string)
    ensures forall s :: s in Sections(text) ==> Solid(s)
  {
    StrippedSolid(Cut(text, |text|));
  }

  lemma SubrunSolid(sections: seq<string>, i: nat, j: nat)
    requires i <= j <= |sections| && forall s :: s in sections ==> Solid(s)
    ensures forall s :: s in sections[i..j] ==> Solid(s)
  {
  }

  lemma CroppedShort(run: seq<string>, maxChars: int, minSection: int)
    requires AllShort(run, minSection) && minSection <= maxChars + 1
    ensures Cropped(run, maxChars) == run
  {
    assert forall i :: 0 <= i < |run| ==> run[i] in run;
  }

  /** A run of short sections is packed greedily, and its neighbouring chunks would not fit together. */
  lemma ShortRunIsGreedy(run: seq<string>, maxChars: int, minSection: int)
    requires AllShort(run, minSection) && forall s :: s in run ==> Solid(s)
    requires 1 <= maxChars && minSection <= maxChars + 1 && run != []
    ensures Greedy(run, ChunksOf(run, maxChars, minSection), maxChars)
    ensures Tight(ChunksOf(run, maxChars, minSection), maxChars)
  {
    hide PackParagraphs, PackSections, Solid, Greedy, Cropped;
    ShortLikeParagraphs(run, maxChars, minSection);
    PackParagraphsGreedy(run, maxChars);
    PackParagraphsTight(run, maxChars);
    CroppedShort(run, maxChars, minSection);
    hide AllShort;
    FlushedTight(PackParagraphs(run, maxChars), maxChars);
  }

  lemma FlushedTight(st: Buffered, maxChars: int)
    requires TightState(st, maxChars) && st.buffer != ""
    ensures Flushed(st.chunks, st.buffer) == st.chunks + [st.buffer] && Tight(Flushed(st.chunks, st.buffer), maxChars)
  {
    hide EndsSolid;
  }

  /**
   In any text, the chunks of neighbouring short sections between two ordinary ones are the greedy packing of these
   sections: they come between the chunks of what precedes and of what follows.
   */
  lemma ShortSectionsMerged(text: string, i: nat, j: nat, maxChars: int, minSection: int)
    requires 1 <= maxChars && minSection <= maxChars + 1
    requires i < j <= |Sections(text)| && AllShort(Sections(text)[i..j], minSection)
    requires Boundary(Sections(text), i, minSection) && Boundary(Sections(text), j, minSection)
    ensures var sections := Sections(text);
      && Chunks(text, maxChars, minSection) ==
           ChunksOf(sections[..i], maxChars, minSection) + ChunksOf(sections[i..j], maxChars, minSection)
           + ChunksOf(sections[j..], maxChars, minSection)
      && Greedy(sections[i..j], ChunksOf(sections[i..j], maxChars, minSection), maxChars)
      && Tight(ChunksOf(sections[i..j], maxChars, minSection), maxChars)
  {
    var sections := Sections(text);
    ChunksAreOfSections(text, maxChars, minSection);
    SectionsSolid(text);
    hide Sections, ChunksOf, Greedy, Tight, Solid;
    SubrunSolid(sections, i, j);
    ShortRunIsGreedy(sections[i..j], maxChars, minSection);
    SplitAtBoundary(sections, j, maxChars, minSection);
    assert sections[..j][..i] == sections[..i] && sections[..j][i..] == sections[i..j];
    SplitAtBoundary(sections[..j], i, maxChars, minSection);
  }

  /** If all sections are short, the chunks are the greedy packing of all of them. */
  lemma AllShortSectionsMerged(text: string, maxChars: int, minSection: int)
    requires 1 <= maxChars && minSection <= maxChars + 1
    requires Sections(text) != [] && AllShort(Sections(text), minSection)
    ensures Greedy(Sections(text), Chunks(text, maxChars, minSection), maxChars)
    ensures Tight(Chunks(text, maxChars, minSection), maxChars)
  {
    ChunksAreOfSections(text, maxChars, minSection);
    SectionsSolid(text);
    ShortRunIsGreedy(Sections(text), maxChars, minSection);
  }

  /** Under any limits, an ordinary section stands alone, whole or split, between what precedes and what follows it. */
  lemma OrdinarySectionStandsAlone(text: string, k: nat, maxChars: int, minSection: int)
    requires k < |Sections(text)| && Ordinary(Sections(text)[k], minSection)
    ensures var sections := Sections(text);
      Chunks(text, maxChars, minSection) ==
        ChunksOf(sections[..k], maxChars, minSection) + Alone(sections[k], maxChars)
        + ChunksOf(sections[k + 1..], maxChars, minSection)
  {
    var sections := Sections(text);
    ChunksAreOfSections(text, maxChars, minSection);
    AroundSection(sections, k);
    hide *;
    SplitAfterOrdinary(sections[..k], sections[k], sections[k + 1..], maxChars, minSection);
  }

  lemma AroundSection(sections: seq<string>, k: nat)
    requires k < |sections|
    ensures sections == sections[..k] + [sections[k]] + sections[k + 1..]
  {
  }
}
