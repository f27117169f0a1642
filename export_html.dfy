/**
 * The workout preview's export (src/Visualizacao.jsx): `gerarHTML` builds one
 * standalone HTML document with a numbered section per exercise, and the
 * notes editor keeps one free-text note per exercise.
 */
module Export {
  import opened Strings
  import opened Selection

  // ---------------------------------------------------------------------------
  // The templates' fixed text
  // ---------------------------------------------------------------------------

  /**
   * The styling text of the two templates, cut at the placeholders and around
   * the bits the properties below mention (`src="`, the title and the
   * heading), which `Section` and `Document` spell out themselves.
   */
  datatype Layout = Layout(
    sectionOpen: string, afterBadge: string, afterName: string, noteOpen: string,
    beforeImage: string, sectionClose: string,
    docOpen: string, head: string, afterHeading: string, docClose: string)

  /** The text of src/Visualizacao.jsx's templates. */
  const Page: Layout := Layout(
    "\n        <section style=\"margin-bottom:40px;text-align:center;\">\n          <div style=\"display:flex;justify-content:center;align-items:center;gap:12px;margin-bottom:8px;\">\n            <div style=\"\n              width:32px;height:32px;border-radius:50%;\n              background:#e0e7ff;color:#4338ca;font-weight:700;\n              display:flex;justify-content:center;align-items:center;\n            \">\n              ",
    "\n            </div>\n\n            <h3 style=\"font-size:22px;font-weight:600;\">\n              ",
    "\n            </h3>\n          </div>\n\n          ",
    "<p style=\"font-size:14px;color:#555;margin-bottom:16px;\">",
    "\n\n          <img \n            ",
    " \n            style=\"\n              width:290px;height:290px;object-fit:contain;\n              border-radius:14px;padding:10px;\n              background:#fafafa;border:1px solid #eee;\"\n          />\n        </section>\n      ",
    "\n<!DOCTYPE html>\n<html lang=\"pt-BR\">\n<head>\n<meta charset=\"UTF-8\"/>\n",
    "\n<style>\n  body {\n    background:white;\n    padding:30px;\n    max-width:900px;\n    margin:auto;\n    font-family:Arial, sans-serif;\n  }\n  h1 {\n    text-align:center;\n    font-size:28px;\n    margin-bottom:30px;\n    font-weight:600;\n  }\n</style>\n</head>\n<body>\n\n",
    "\n\n",
    "\n\n<footer style=\"text-align:center;margin-top:40px;font-size:12px;color:#aaa;\">\n  Treino criado por Rodolfo Ferraz\n</footer>\n\n</body>\n</html>\n    ")

  // ---------------------------------------------------------------------------
  // gerarHTML
  // ---------------------------------------------------------------------------

  /** `obs[i]`; a slot the notes array lacks reads as "" (undefined is falsy as well). */
  function NoteAt(obs: seq<string>, i: nat): string
  {
    if i < |obs| then obs[i] else ""
  }

  /** The note paragraph: present only for a non-empty note, which it shows verbatim. */
  function NoteParagraph(t: Layout, note: string): string
  {
    if note == [] then [] else t.noteOpen + note + "</p>"
  }

  /**
   * Section `i` of the export: the badge `i + 1`, the exercise name, the
   * note paragraph, and the image pointing at `ex.file`. Nothing is escaped.
   */
  function Section(t: Layout, i: nat, ex: Exercise, note: string): (r: string)
    ensures t.sectionOpen + Decimal(i + 1) + t.afterBadge + ex.nome + t.afterName <= r
    ensures var image := "src=\"" + ex.file + "\"" + t.sectionClose;
      |image| <= |r| && r[|r| - |image|..] == image
  {
    Framed(t.sectionOpen + Decimal(i + 1) + t.afterBadge + ex.nome + t.afterName,
      NoteParagraph(t, note) + t.beforeImage, "src=\"" + ex.file + "\"" + t.sectionClose);
    t.sectionOpen + Decimal(i + 1) + t.afterBadge + ex.nome + t.afterName + NoteParagraph(t, note)
      + t.beforeImage + "src=\"" + ex.file + "\"" + t.sectionClose
  }

  /** `a + b + c` begins with `a` and ends with `c`. */
  lemma Framed(a: string, b: string, c: string)
    ensures a <= a + b + c
    ensures |c| <= |a + b + c| && (a + b + c)[|a + b + c| - |c|..] == c
  {
    var r := a + b + c;
    assert r[..|a|] == a;
    assert r[|r| - |c|..] == c;
  }

  /** The strings of `ss` joined in order. */
  function Concat(ss: seq<string>): string
  {
    if ss == [] then [] else Concat(ss[..|ss| - 1]) + ss[|ss| - 1]
  }

  /** One section per selected exercise, in list order, each with its own note. */
  function Sections(t: Layout, selecionados: seq<Exercise>, obs: seq<string>): (r: seq<string>)
    ensures |r| == |selecionados|
    ensures forall i :: 0 <= i < |r| ==> r[i] == Section(t, i, selecionados[i], NoteAt(obs, i))
  {
    seq(|selecionados|, i requires 0 <= i < |selecionados| => Section(t, i, selecionados[i], NoteAt(obs, i)))
  }

  /** The `<title>` element naming the student. */
  function TitleTag(nomeAluno: string): string
  {
    "<title>Treino - " + nomeAluno + "</title>"
  }

  /** The `<h1>` heading naming the student. */
  function HeadingTag(nomeAluno: string): string
  {
    "<h1>Treino de " + nomeAluno + "</h1>"
  }

  /** The whole document around the joined sections `bloco`. */
  function Document(t: Layout, nomeAluno: string, bloco: string): (r: string)
    ensures Contains(r, "<title>Treino - " + nomeAluno + "</title>")
    ensures Contains(r, "<h1>Treino de " + nomeAluno + "</h1>")
    ensures t.docOpen + TitleTag(nomeAluno) + t.head + HeadingTag(nomeAluno) + t.afterHeading <= r
    ensures |bloco + t.docClose| <= |r| && r[|r| - |bloco + t.docClose|..] == bloco + t.docClose
  {
    DocumentParts(t.docOpen, TitleTag(nomeAluno), t.head, HeadingTag(nomeAluno), t.afterHeading, bloco, t.docClose);
    t.docOpen + TitleTag(nomeAluno) + t.head + HeadingTag(nomeAluno) + t.afterHeading + bloco + t.docClose
  }

  /** The title and the heading open the document, and the sections and closing text end it. */
  lemma DocumentParts(open: string, title: string, head: string, heading: string, after: string, bloco: string, close: string)
    ensures var d := open + title + head + heading + after + bloco + close;
      Contains(d, title) && Contains(d, heading) && open + title + head + heading + after <= d
      && |bloco + close| <= |d| && d[|d| - |bloco + close|..] == bloco + close
  {
    var pre := open + title + head + heading + after;
    var d := pre + bloco + close;
    assert d == open + title + (head + heading + after + bloco + close);
    ContainsInfix(open, title, head + heading + after + bloco + close);
    assert d == (open + title + head) + heading + (after + bloco + close);
    ContainsInfix(open + title + head, heading, after + bloco + close);
    assert d[|d| - |bloco + close|..] == bloco + close;
    assert d[..|pre|] == pre;
  }

  /** The file name offered for download. */
  function DownloadName(nomeAluno: string): string
  {
    "Treino-" + nomeAluno + ".html"
  }

  /** The loop of `gerarHTML` and the document around it, for the template text `t`. */
  method Render(t: Layout, selecionados: seq<Exercise>, obs: seq<string>, nomeAluno: string)
    returns (html: string)
    ensures html == Document(t, nomeAluno, Concat(Sections(t, selecionados, obs)))
  {
    ghost var ss := Sections(t, selecionados, obs);
    var bloco := "";
    var i := 0;
    while i < |selecionados|
      invariant 0 <= i <= |selecionados|
      invariant bloco == Concat(ss[..i])
    {
      var ex := selecionados[i];
      var note := if i < |obs| then obs[i] else "";
      var section := t.sectionOpen + Decimal(i + 1) + t.afterBadge + ex.nome + t.afterName
        + (if note != [] then t.noteOpen + note + "</p>" else "")
        + t.beforeImage + "src=\"" + ex.file + "\"" + t.sectionClose;
      SectionUnfolds(t, i, ex, note);
      assert ss[i] == section;
      ConcatStep(ss, i);
      bloco := bloco + section;
      i := i + 1;
    }
    assert ss[..i] == ss;
    html := t.docOpen + TitleTag(nomeAluno) + t.head + HeadingTag(nomeAluno) + t.afterHeading + bloco + t.docClose;
  }

  /** Joining one more string of `ss` appends it. */
  lemma ConcatStep(ss: seq<string>, i: nat)
    requires i < |ss|
    ensures Concat(ss[..i + 1]) == Concat(ss[..i]) + ss[i]
  {
    assert ss[..i + 1][..i] == ss[..i];
  }

  /** `Section` spelled out with the note paragraph's test inline, as the loop writes it. */
  lemma SectionUnfolds(t: Layout, i: nat, ex: Exercise, note: string)
    ensures Section(t, i, ex, note)
      == t.sectionOpen + Decimal(i + 1) + t.afterBadge + ex.nome + t.afterName
         + (if note != [] then t.noteOpen + note + "</p>" else "")
         + t.beforeImage + "src=\"" + ex.file + "\"" + t.sectionClose
  {
  }

  /** `gerarHTML`: the exported document and the name it is downloaded under. */
  method GenerateHtml(selecionados: seq<Exercise>, obs: seq<string>, nomeAluno: string)
    returns (html: string, download: string)
    ensures html == Document(Page, nomeAluno, Concat(Sections(Page, selecionados, obs)))
    ensures download == DownloadName(nomeAluno)
  {
    html := Render(Page, selecionados, obs, nomeAluno);
    download := "Treino-" + nomeAluno + ".html";
  }

  /** Joining distributes over concatenation of lists. */
  lemma {:induction false} ConcatAppend(a: seq<string>, b: seq<string>)
    ensures Concat(a + b) == Concat(a) + Concat(b)
    decreases |b|
  {
    if b == [] {
      assert a + b == a;
    } else {
      var n := |b| - 1;
      assert (a + b)[..|a + b| - 1] == a + b[..n];
      ConcatAppend(a, b[..n]);
    }
  }

  /**
   * The document holds exactly one section per exercise, in list order:
   * section `i` comes right after sections `0..i-1` and right before
   * sections `i+1..`.
   */
  lemma DocumentLayout(t: Layout, selecionados: seq<Exercise>, obs: seq<string>, nomeAluno: string, i: nat)
    requires i < |selecionados|
    ensures var ss := Sections(t, selecionados, obs);
      Document(t, nomeAluno, Concat(ss))
        == Document(t, nomeAluno, Concat(ss[..i]) + Section(t, i, selecionados[i], NoteAt(obs, i)) + Concat(ss[i + 1..]))
  {
    var ss := Sections(t, selecionados, obs);
    assert ss == ss[..i] + [ss[i]] + ss[i + 1..];
    ConcatAppend(ss[..i] + [ss[i]], ss[i + 1..]);
    ConcatAppend(ss[..i], [ss[i]]);
    assert Concat([ss[i]]) == Concat([]) + ss[i];
  }

  /** The note paragraph appears, with the note verbatim, exactly for a non-empty note. */
  lemma SectionNote(t: Layout, i: nat, ex: Exercise, note: string)
    ensures note != [] ==> Contains(Section(t, i, ex, note), t.noteOpen + note + "</p>")
    ensures note == [] ==>
      Section(t, i, ex, note)
        == t.sectionOpen + Decimal(i + 1) + t.afterBadge + ex.nome + t.afterName
           + t.beforeImage + "src=\"" + ex.file + "\"" + t.sectionClose
  {
    var front := t.sectionOpen + Decimal(i + 1) + t.afterBadge + ex.nome + t.afterName;
    var back := t.beforeImage + "src=\"" + ex.file + "\"" + t.sectionClose;
    if note != [] {
      assert Section(t, i, ex, note) == front + (t.noteOpen + note + "</p>") + back;
      ContainsInfix(front, t.noteOpen + note + "</p>", back);
    } else {
      assert Section(t, i, ex, note) == front + back;
    }
  }

  // ---------------------------------------------------------------------------
  // The notes array `obs`
  // ---------------------------------------------------------------------------

  /** `selecionados.map(() => "")`: one empty note per exercise. */
  function InitialNotes(n: nat): (r: seq<string>)
    ensures |r| == n && forall i :: 0 <= i < n ==> r[i] == ""
  {
    seq(n, i => "")
  }

  /** With the initial notes no section has a note paragraph. */
  lemma InitialNotesHaveNoParagraph(t: Layout, selecionados: seq<Exercise>, i: nat)
    requires i < |selecionados|
    ensures Sections(t, selecionados, InitialNotes(|selecionados|))[i]
      == t.sectionOpen + Decimal(i + 1) + t.afterBadge + selecionados[i].nome + t.afterName
         + t.beforeImage + "src=\"" + selecionados[i].file + "\"" + t.sectionClose
  {
    SectionNote(t, i, selecionados[i], "");
  }

  /**
   * The notes after writing `value` into slot `idx`. Writing past the end
   * lengthens the array; the slots skipped over read as "".
   */
  function NotesAfterEdit(obs: seq<string>, idx: nat, value: string): (r: seq<string>)
    ensures |r| == if idx < |obs| then |obs| else idx + 1
  {
    var n := if idx < |obs| then |obs| else idx + 1;
    seq(n, k requires 0 <= k < n => if k == idx then value else NoteAt(obs, k))
  }

  /** The note editor: copies the notes array and assigns one slot. */
  method EditNote(obs: seq<string>, idx: nat, value: string) returns (novas: seq<string>)
    ensures novas == NotesAfterEdit(obs, idx, value)
  {
    var n := if idx < |obs| then |obs| else idx + 1;
    var c := new string[n](k requires 0 <= k < n => if k < |obs| then obs[k] else "");
    c[idx] := value;
    novas := c[..];
  }

  /** Editing a note sets that slot and leaves every other note as it was. */
  lemma EditNoteChangesOneSlot(obs: seq<string>, idx: nat, value: string)
    ensures NoteAt(NotesAfterEdit(obs, idx, value), idx) == value
    ensures forall k :: 0 <= k && k != idx ==> NoteAt(NotesAfterEdit(obs, idx, value), k) == NoteAt(obs, k)
    ensures idx < |obs| ==> NotesAfterEdit(obs, idx, value) == obs[idx := value]
  {
  }
}
