/** src/utils/codeGenerator.ts: `CodeGenerator.generate` builds a bookmarklet
    from a pair of templates per mode. In single-key mode it fills the
    templates' `{source}` and `{key}` placeholders with global regular
    expression replacements; in "all" mode it takes the templates as they are.
    The clipboard helper of src/utils/clipboardManager.ts:4 is appended. */
module CodeGenerator {
  import opened Wrappers
  import opened Text
  import opened Types
  import ClipboardManager

  // ---------------------------------------------------------------------------
  // Templates

  /** The two placeholders. */
  datatype Hole = SourceHole | KeyHole

  /** A piece of template text. A literal stretch is cut at each `{`: a
      `Brace` piece is a `{` followed by `rest`. */
  datatype Piece = Lit(text: string) | Brace(rest: string) | Slot(hole: Hole)

  type Template = seq<Piece>

  function Placeholder(h: Hole): string {
    match h
    case SourceHole => "{source}"
    case KeyHole => "{key}"
  }

  function PieceText(p: Piece): string {
    match p
    case Lit(s) => s
    case Brace(s) => "{" + s
    case Slot(h) => Placeholder(h)
  }

  /** The template's text as it is written, placeholders included. */
  function Written(t: Template): string
    decreases |t|
  {
    if t == [] then [] else PieceText(t[0]) + Written(t[1..])
  }

  /** `t` with hole `h` filled by the text `v`. */
  function Fill(t: Template, h: Hole, v: string): Template {
    seq(|t|, i requires 0 <= i < |t| => if t[i] == Slot(h) then Lit(v) else t[i])
  }

  /** The text the template stands for once `source` and `key` are put in
      place of its placeholders. */
  function Render(t: Template, source: string, key: string): string {
    Written(Fill(Fill(t, SourceHole, source), KeyHole, key))
  }

  /** A literal piece that cannot begin a placeholder: it holds no `{`, or a
      single `{` at its head that is followed by neither `s` nor `k`. */
  predicate Quiet(p: Piece) {
    match p
    case Lit(s) => '{' !in s
    case Brace(s) => s != [] && s[0] != 's' && s[0] != 'k' && '{' !in s
    case Slot(_) => true
  }

  type Chunk = p: Piece | Quiet(p) witness Lit("")

  /** A quiet piece that is not the `{key}` placeholder. */
  type SourceOnly = p: Piece | Quiet(p) && p != Slot(KeyHole) witness Lit("")

  /** No literal piece of `t` can start an occurrence of `pat`. */
  predicate Clean(t: Template, pat: string)
    requires pat != []
  {
    forall i :: 0 <= i < |t| && !t[i].Slot? ==> Inert(PieceText(t[i]), pat)
  }

  lemma QuietInert(p: Piece, h: Hole)
    requires Quiet(p) && !p.Slot?
    ensures Inert(PieceText(p), Placeholder(h))
  {
    var pat := Placeholder(h);
    match p
    case Lit(s) =>
      InertWithoutHead(s, pat);
    case Brace(s) =>
      var head := ['{', s[0]];
      assert PieceText(p) == head + s[1..];
      assert head[1..] + s[1..] == s;
      InertAfterMismatch(head, s[1..], pat);
  }

  /** Neither placeholder can start inside the other. */
  lemma PlaceholdersApart(g: Hole, h: Hole)
    requires g != h
    ensures Inert(Placeholder(g), Placeholder(h))
  {
    if g == SourceHole {
      assert Placeholder(g) == "{source}";
      assert Placeholder(h)[..2][1] == 'k' != "{s"[1];
      InertAfterMismatch("{s", "ource}", Placeholder(h));
    } else {
      assert Placeholder(g) == "{key}";
      assert Placeholder(h)[..2][1] == 's' != "{k"[1];
      InertAfterMismatch("{k", "ey}", Placeholder(h));
    }
  }

  lemma WrittenCons(t: Template)
    requires t != []
    ensures Written(t) == PieceText(t[0]) + Written(t[1..])
  {
  }

  /** The literal replacement of placeholder `h` by `v` in the written
      template is the template with hole `h` filled, provided no literal piece
      and no other placeholder can start a match; so is JavaScript's
      `text.replace(/\{h\}/g, v)` when `v` holds no `$`. */
  lemma {:induction false} FillIsReplace(t: Template, h: Hole, v: string)
    requires Clean(t, Placeholder(h))
    requires forall i :: 0 <= i < |t| && t[i].Slot? && t[i].hole != h ==>
      Inert(Placeholder(t[i].hole), Placeholder(h))
    ensures ReplaceAll(Written(t), Placeholder(h), v) == Written(Fill(t, h, v))
    ensures '$' !in v ==> ReplaceGlobal(Written(t), Placeholder(h), v) == Written(Fill(t, h, v))
    decreases |t|
  {
    if '$' !in v {
      ReplaceGlobalLiteral(Written(t), Placeholder(h), v);
    }
    if t != [] {
      var pat := Placeholder(h);
      var rest := t[1..];
      assert Fill(t, h, v)[1..] == Fill(rest, h, v);
      assert Clean(rest, pat) by {
        forall i | 0 <= i < |rest| && !rest[i].Slot? ensures Inert(PieceText(rest[i]), pat) {
          assert rest[i] == t[i + 1];
        }
      }
      FillIsReplace(rest, h, v);
      WrittenCons(Fill(t, h, v));
      match t[0]
      case Slot(g) =>
        if g == h {
          ReplaceAllMatchPrefix(Written(rest), pat, v);
        } else {
          ReplaceAllInertPrefix(Placeholder(g), Written(rest), pat, v);
        }
      case _ =>
        ReplaceAllInertPrefix(PieceText(t[0]), Written(rest), pat, v);
    }
  }

  /** Replacing `{source}` in a template of quiet pieces fills its source
      holes. */
  lemma ReplaceSourceFills(t: seq<Chunk>, source: string)
    ensures ReplaceAll(Written(t), "{source}", source) == Written(Fill(t, SourceHole, source))
    ensures '$' !in source ==> ReplaceGlobal(Written(t), "{source}", source) == Written(Fill(t, SourceHole, source))
  {
    forall i | 0 <= i < |t| && !t[i].Slot? ensures Inert(PieceText(t[i]), "{source}") {
      QuietInert(t[i], SourceHole);
    }
    PlaceholdersApart(KeyHole, SourceHole);
    FillIsReplace(t, SourceHole, source);
  }

  /** The two chained replacements of line 27, taken literally, substitute
      the placeholders of a template of quiet pieces, as long as the source's
      name holds no `{`; so do JavaScript's when neither text holds a `$`. */
  lemma ReplaceBothIsRender(t: seq<Chunk>, source: string, key: string)
    requires '{' !in source
    ensures ReplaceAll(ReplaceAll(Written(t), "{source}", source), "{key}", key) == Render(t, source, key)
    ensures '$' !in source && '$' !in key ==>
      ReplaceGlobal(ReplaceGlobal(Written(t), "{source}", source), "{key}", key) == Render(t, source, key)
  {
    ReplaceSourceFills(t, source);
    var t1 := Fill(t, SourceHole, source);
    forall i | 0 <= i < |t1| && !t1[i].Slot? ensures Inert(PieceText(t1[i]), "{key}") {
      if t[i].Slot? {
        InertWithoutHead(source, "{key}");
      } else {
        QuietInert(t[i], KeyHole);
      }
    }
    FillIsReplace(t1, KeyHole, key);
  }

  /** A template whose pieces are all literal and inert is inert as a whole. */
  lemma {:induction false} WrittenInert(t: Template, pat: string)
    requires pat != []
    requires forall i :: 0 <= i < |t| ==> !t[i].Slot? && Inert(PieceText(t[i]), pat)
    ensures Inert(Written(t), pat)
    decreases |t|
  {
    if t == [] {
    } else {
      WrittenInert(t[1..], pat);
      InertConcat(PieceText(t[0]), Written(t[1..]), pat);
    }
  }

  /** Filling both holes of a quiet template with texts that hold no `{`
      leaves no placeholder in the result. */
  lemma RenderLeavesNoPlaceholder(t: seq<Chunk>, source: string, key: string, h: Hole)
    requires '{' !in source && '{' !in key
    ensures !Occurs(Render(t, source, key), Placeholder(h))
  {
    var pat := Placeholder(h);
    var f := Fill(Fill(t, SourceHole, source), KeyHole, key);
    forall i | 0 <= i < |f| ensures !f[i].Slot? && Inert(PieceText(f[i]), pat) {
      if t[i] == Slot(SourceHole) {
        InertWithoutHead(source, pat);
      } else if t[i] == Slot(KeyHole) {
        InertWithoutHead(key, pat);
      } else {
        QuietInert(t[i], h);
      }
    }
    WrittenInert(f, pat);
    InertNoOccurrence(Written(f), pat);
  }

  // ---------------------------------------------------------------------------
  // The templates of lines 10-19

  /** `TEMPLATES.all.extractor` (line 12). */
  const AllExtractor: string :=
    "var d={l:{},c:{},u:location.href};for(var i=0;" +
    "i<localStorage.length;i++){" +
    "var k=localStorage.key(i);if(k)" +
    "d.l[k]=localStorage.getItem(k)}" +
    "document.cookie.split(';').forEach(function(c){" +
    "var p=c.trim().split('=');if(p[0]&&p[1])" +
    "d.c[p[0]]=decodeURIComponent(p[1])})"

  /** `TEMPLATES.all.injector` (line 13). */
  const AllInjector: string :=
    "Object.keys(d.l).forEach(function(k){" +
    "localStorage.setItem(k,d.l[k])});" +
    "Object.keys(d.c).forEach(function(k){" +
    "document.cookie=k+\"=\"+encodeURIComponent(d.c[k])" +
    "+\"; path=/; max-age=86400\"})"

  // The single-key templates in pieces. A piece ends before each `{` and at
  // each placeholder; longer stretches are cut further, at arbitrary points,
  // because checking that a literal holds no `{` grows quickly with its length.

  const SourceTest: Chunk := Lit("\"===\"" + "local" + "Storage\")")

  const X0: Chunk := Lit("var u=" + "location" + ".href,v;")
  const X1: Chunk := Lit("if(\"")
  const X2: Chunk := Brace("v=local" + "Storage.")
  const X3: Chunk := Lit("getItem(\"")
  const X4: Chunk := Lit("\")}else")
  const X5: Chunk := Brace("var c=" + "document.")
  const X6: Chunk := Lit("cookie" + ".split" + "(';')")
  const X7: Chunk := Lit(".find(" + "function" + "(x)")
  const X8: Chunk := Brace("return" + " x.trim()")
  const X9: Chunk := Lit(".starts" + "With(\"")
  const X10: Chunk := Lit("=\")});" + "v=c?")
  const X11: Chunk := Lit("decode" + "URI" + "Component" + "(")
  const X12: Chunk := Lit("c.split(" + "'=')[1])")
  const X13: Chunk := Lit(":null}" + "if(!v)")
  const X14: Chunk := Brace("console" + ".error(")
  const X15: Chunk := Lit("\"❌未找到\");" + "return}")

  /** `TEMPLATES.single.extractor` (line 16). */
  const SingleExtractor: seq<Chunk> :=
    [X0, X1, Slot(SourceHole), SourceTest, X2, X3, Slot(KeyHole), X4, X5, X6, X7, X8, X9, Slot(KeyHole),
     X10, X11, X12, X13, X14, X15]

  const N0: Chunk := Lit("if(\"")
  const N1: Chunk := Brace("local" + "Storage.")
  const N2: Chunk := Lit("setItem(" + "k,v)}" + "else")
  const N3: Chunk := Brace("document" + ".cookie=")
  const N4: Chunk := Lit("k+\"=\"+")
  const N5: Chunk := Lit("encode" + "URI" + "Component" + "(v)")
  const N6: Chunk := Lit("+\"; " + "path=/; ")
  const N7: Chunk := Lit("max-age=" + "86400\"}")

  /** `TEMPLATES.single.injector` (line 17): it has no `{key}`. */
  const SingleInjector: seq<SourceOnly> := [N0, Slot(SourceHole), SourceTest, N1, N2, N3, N4, N5, N6, N7]

  // ---------------------------------------------------------------------------
  // generate (lines 21-37)

  /** A source's name holds neither `{` nor `$`. */
  lemma NameQuiet(s: Source)
    ensures '{' !in s.Name() && '$' !in s.Name()
  {
  }

  /** `extractor` (lines 25-27): in single mode `{source}` is replaced by the
      source's name and then `{key}` by `config.key || ''`, both through
      JavaScript's `replace`, which reads `$` patterns in the key. For a key
      without `$` the placeholders are filled with the texts as they are. */
  function ExtractorCode(config: Config): (r: string)
    ensures config.source == All ==> r == AllExtractor
    ensures config.source != All && '$' !in OrEmpty(config.key) ==>
      r == Render(SingleExtractor, config.source.Name(), OrEmpty(config.key))
  {
    if config.source == All then AllExtractor
    else
      var source := config.source.Name();
      var key := OrEmpty(config.key);
      NameQuiet(config.source);
      if '$' in key then
        ReplaceGlobal(ReplaceGlobal(Written(SingleExtractor), "{source}", source), "{key}", key)
      else
        ReplaceBothIsRender(SingleExtractor, source, key);
        ReplaceGlobal(ReplaceGlobal(Written(SingleExtractor), "{source}", source), "{key}", key)
  }

  /** What line 27 is meant to produce: the key put in place of `{key}` as
      it is, whatever characters it holds. */
  function IntendedExtractorCode(config: Config): (r: string)
    ensures config.source == All ==> r == AllExtractor
    ensures config.source != All ==>
      r == Render(SingleExtractor, config.source.Name(), OrEmpty(config.key))
    ensures '$' !in OrEmpty(config.key) ==> r == ExtractorCode(config)
  {
    if config.source == All then AllExtractor
    else
      NameQuiet(config.source);
      ReplaceBothIsRender(SingleExtractor, config.source.Name(), OrEmpty(config.key));
      ReplaceAll(ReplaceAll(Written(SingleExtractor), "{source}", config.source.Name()), "{key}", OrEmpty(config.key))
  }

  /** `injector` (lines 29-31): only `{source}` is replaced. */
  function InjectorCode(config: Config): (r: string)
    ensures config.source == All ==> r == AllInjector
    ensures config.source != All ==> r == Render(SingleInjector, config.source.Name(), "")
  {
    if config.source == All then AllInjector
    else
      NameQuiet(config.source);
      ReplaceSourceIsRender(SingleInjector, config.source.Name(), "");
      ReplaceGlobal(Written(SingleInjector), "{source}", config.source.Name())
  }

  /** For a template without `{key}`, replacing `{source}` by a name without
      `$` renders it, whatever the key. */
  lemma ReplaceSourceIsRender(t: seq<SourceOnly>, source: string, key: string)
    requires '$' !in source
    ensures ReplaceGlobal(Written(t), "{source}", source) == Render(t, source, key)
  {
    forall i | 0 <= i < |t| && !t[i].Slot? ensures Inert(PieceText(t[i]), "{source}") {
      QuietInert(t[i], SourceHole);
    }
    FillIsReplace(t, SourceHole, source);
    var t1 := Fill(t, SourceHole, source);
    assert Fill(t1, KeyHole, key) == t1;
  }

  /** `dataVar` (line 33): the object code B declares. */
  function DataVar(config: Config): string {
    if config.source == All then "d"
    else "{u:\"'+u+'\",k:\"" + Interpolated(config.key) + "\",v:'+JSON.stringify(v)+'}"
  }

  /** The address code B goes to (line 36). */
  function Destination(config: Config): string {
    if config.source == All then "d.u" else "u"
  }

  // The fixed text around code B (line 36).
  const CodeBOpening: string := ";var b='javascript:(function(){var "
  const Completion: string := ";console.log(\"✅完成\");"
  const Redirect: string := "setTimeout(function(){location.href=\"'+"
  const CodeBClosing: string := "+'\"},500)})()';"

  /** Code B and what follows code A up to the clipboard helpers (line 36):
      code B declares the data first and ends by going, half a second later,
      to `d.u` in "all" mode and to `u` in single-key mode. */
  function Bookmarklet(config: Config): (r: string)
    ensures StartsWith(r, CodeBOpening + DataVar(config) + ";")
    ensures EndsWith(r, Redirect + Destination(config) + CodeBClosing)
  {
    var declare := CodeBOpening + DataVar(config) + ";";
    var leave := Redirect + Destination(config);
    Framed(declare, InjectorCode(config) + Completion, leave, CodeBClosing);
    declare + (InjectorCode(config) + Completion) + leave + CodeBClosing
  }

  const Opening: string := "(function(){"
  const Closing: string := "f(b);return '✅完成'})()"

  /** `CodeGenerator.generate(config)` (line 36). */
  function Generate(config: Config): string {
    Opening + ExtractorCode(config) + Bookmarklet(config) + ClipboardManager.MinifiedCode + Closing
  }

  // ---------------------------------------------------------------------------
  // Properties

  /** Without a key, code A looks up the empty name (`config.key || ''`,
      line 27) while code B's data carries the text "undefined" (the
      template literal of line 33): the two halves disagree on the key. */
  lemma MissingKeyMismatch(config: Config)
    requires config.source != All && config.key.None?
    ensures ExtractorCode(config) == ExtractorCode(config.(key := Some("")))
    ensures ExtractorCode(config) == Render(SingleExtractor, config.source.Name(), "")
    ensures DataVar(config) == DataVar(config.(key := Some("undefined")))
    ensures DataVar(config) != DataVar(config.(key := Some("")))
  {
    var withEmpty := config.(key := Some(""));
    assert |DataVar(config)| != |DataVar(withEmpty)|;
  }

  /** The script opens a function with code A in it, and ends by handing
      code B to the clipboard helpers and returning (lines 34-36). */
  lemma GenerateShape(config: Config)
    ensures StartsWith(Generate(config), Opening + ExtractorCode(config))
    ensures EndsWith(Generate(config), ClipboardManager.MinifiedCode + Closing)
  {
    Framed(Opening + ExtractorCode(config), Bookmarklet(config), ClipboardManager.MinifiedCode, Closing);
  }

  /** In single mode every placeholder is replaced, as long as the key holds
      no `{`: in code B always, in code A as intended always, and in code A
      as written when the key also holds no `$`. */
  lemma SingleModeFillsPlaceholders(config: Config, h: Hole)
    requires config.source != All && '{' !in OrEmpty(config.key)
    ensures !Occurs(InjectorCode(config), Placeholder(h))
    ensures !Occurs(IntendedExtractorCode(config), Placeholder(h))
    ensures '$' !in OrEmpty(config.key) ==> !Occurs(ExtractorCode(config), Placeholder(h))
  {
    NameQuiet(config.source);
    RenderLeavesNoPlaceholder(SingleExtractor, config.source.Name(), OrEmpty(config.key), h);
    RenderLeavesNoPlaceholder(SingleInjector, config.source.Name(), "", h);
  }

  /** The key `$&` is read by `replace` as "the match": every `{key}` is put
      back, so code A reads the item named `{key}` instead of `$&`. */
  lemma DollarKeyKeepsPlaceholder(config: Config)
    requires config.source != All && config.key == Some("$&")
    ensures Occurs(ExtractorCode(config), "{key}")
    ensures !Occurs(IntendedExtractorCode(config), "{key}")
  {
    NameQuiet(config.source);
    assert SingleExtractor[6] == Slot(KeyHole);
    MatchKeepsKeyHole(SingleExtractor, config.source.Name(), 6);
    RenderLeavesNoPlaceholder(SingleExtractor, config.source.Name(), "$&", KeyHole);
  }

  /** Replacing `{source}`, then `{key}` by `$&`, leaves a `{key}` wherever
      the template has a key hole. */
  lemma MatchKeepsKeyHole(t: seq<Chunk>, source: string, i: nat)
    requires '$' !in source && i < |t| && t[i] == Slot(KeyHole)
    ensures Occurs(ReplaceGlobal(ReplaceGlobal(Written(t), "{source}", source), "{key}", "$&"), "{key}")
  {
    var once := ReplaceGlobal(Written(t), "{source}", source);
    ReplaceSourceFills(t, source);
    ReplaceGlobalMatch(once, "{key}");
    KeyHoleWritten(t, source, i);
  }

  /** A key hole the source is filled around is still written `{key}`. */
  lemma KeyHoleWritten(t: Template, source: string, i: nat)
    requires i < |t| && t[i] == Slot(KeyHole)
    ensures Occurs(Written(Fill(t, SourceHole, source)), "{key}")
  {
    var p, q := t[..i], t[i + 1..];
    assert t == p + [t[i]] + q;
    FillAppend(p + [Slot(KeyHole)], q, SourceHole, source);
    FillAppend(p, [Slot(KeyHole)], SourceHole, source);
    var fp, fq := Fill(p, SourceHole, source), Fill(q, SourceHole, source);
    assert Fill([Slot(KeyHole)], SourceHole, source) == [Slot(KeyHole)];
    WrittenAppend(fp + [Slot(KeyHole)], fq);
    WrittenAppend(fp, [Slot(KeyHole)]);
    assert Written([Slot(KeyHole)]) == "{key}";
    var w := Written(fp) + "{key}" + Written(fq);
    assert Written(Fill(t, SourceHole, source)) == w;
    assert w[|Written(fp)|..|Written(fp)| + 5] == "{key}";
    assert MatchAt(w, "{key}", |Written(fp)|);
  }

  // ---------------------------------------------------------------------------
  // Templates put together

  /** The text of two templates side by side is the two texts side by side. */
  lemma {:induction false} WrittenAppend(a: Template, b: Template)
    ensures Written(a + b) == Written(a) + Written(b)
    decreases |a|
  {
    if a == [] {
      assert a + b == b;
    } else {
      assert (a + b)[0] == a[0];
      assert (a + b)[1..] == a[1..] + b;
      WrittenAppend(a[1..], b);
      calc {
        Written(a + b);
        PieceText(a[0]) + Written(a[1..] + b);
        PieceText(a[0]) + (Written(a[1..]) + Written(b));
        (PieceText(a[0]) + Written(a[1..])) + Written(b);
      }
    }
  }

  /** Filling a hole works piece by piece. */
  lemma FillAppend(a: Template, b: Template, h: Hole, v: string)
    ensures Fill(a + b, h, v) == Fill(a, h, v) + Fill(b, h, v)
  {
  }

  /** How many times hole `h` occurs in the template. */
  function Holes(t: Template, h: Hole): (r: nat)
    ensures r <= |t|
    ensures r == 0 <==> Slot(h) !in t
    decreases |t|
  {
    if t == [] then 0
    else (if t[0] == Slot(h) then 1 else 0) + Holes(t[1..], h)
  }

  /** Rendering works piece by piece. */
  lemma RenderAppend(a: Template, b: Template, source: string, key: string)
    ensures Render(a + b, source, key) == Render(a, source, key) + Render(b, source, key)
  {
    FillAppend(a, b, SourceHole, source);
    FillAppend(Fill(a, SourceHole, source), Fill(b, SourceHole, source), KeyHole, key);
    WrittenAppend(Fill(Fill(a, SourceHole, source), KeyHole, key), Fill(Fill(b, SourceHole, source), KeyHole, key));
  }

  /** Multiplication distributes over addition; the length lemmas below
      multiply the number of holes by the length of the inserted text. */
  lemma Distribute(a: int, b: int, c: int)
    ensures (a + b) * c == a * c + b * c
  {
  }

  /** One piece rendered: a hole grows by the text put in it. */
  lemma PieceRenderLength(p: Piece, source: string, key: string)
    ensures |Render([p], source, key)| == |Render([p], "", "")| +
      (if p == Slot(SourceHole) then |source| else 0) + (if p == Slot(KeyHole) then |key| else 0)
  {
    assert Written(Fill(Fill([p], SourceHole, source), KeyHole, key)) == PieceText(Fill(Fill([p], SourceHole, source), KeyHole, key)[0]);
    assert Written(Fill(Fill([p], SourceHole, ""), KeyHole, "")) == PieceText(Fill(Fill([p], SourceHole, ""), KeyHole, "")[0]);
  }

  /** A rendered template is as long as its fixed text plus every filled
      hole. */
  lemma {:induction false} RenderLength(t: Template, source: string, key: string)
    ensures |Render(t, source, key)| == |Render(t, "", "")| + Holes(t, SourceHole) * |source| + Holes(t, KeyHole) * |key|
    decreases |t|
  {
    if t == [] {
      assert Fill(Fill(t, SourceHole, source), KeyHole, key) == [];
      assert Fill(Fill(t, SourceHole, ""), KeyHole, "") == [];
      assert Holes(t, SourceHole) == 0 && Holes(t, KeyHole) == 0;
    } else {
      var tail := t[1..];
      assert t == [t[0]] + tail;
      RenderAppend([t[0]], tail, source, key);
      RenderAppend([t[0]], tail, "", "");
      RenderLength(tail, source, key);
      PieceRenderLength(t[0], source, key);
      var s := if t[0] == Slot(SourceHole) then 1 else 0;
      var k := if t[0] == Slot(KeyHole) then 1 else 0;
      assert Holes(t, SourceHole) == s + Holes(tail, SourceHole);
      assert Holes(t, KeyHole) == k + Holes(tail, KeyHole);
      StepLength(|Render([t[0]], source, key)|, |Render([t[0]], "", "")|,
        |Render(tail, source, key)|, |Render(tail, "", "")|,
        s, Holes(tail, SourceHole), Holes(t, SourceHole), |source|, k, Holes(tail, KeyHole), Holes(t, KeyHole), |key|);
    }
  }

  /** The arithmetic of one step of `RenderLength`. */
  lemma StepLength(p: int, p0: int, l: int, l0: int, s: int, hs: int, hs': int, ls: int, k: int, hk: int, hk': int, lk: int)
    requires s == 0 || s == 1
    requires k == 0 || k == 1
    requires hs' == s + hs && hk' == k + hk
    requires p == p0 + (if s == 1 then ls else 0) + (if k == 1 then lk else 0)
    requires l == l0 + hs * ls + hk * lk
    ensures p + l == p0 + l0 + hs' * ls + hk' * lk
  {
    Distribute(s, hs, ls);
    Distribute(k, hk, lk);
  }


  /** Filling a hole the template does not have changes nothing. */
  lemma FillAbsent(t: Template, h: Hole, v: string)
    requires Slot(h) !in t
    ensures Fill(t, h, v) == t
  {
  }

  /** A positive factor cancels; `KeyRecoverable` uses it to compare the
      lengths of two fills. */
  lemma CancelFactor(n: nat, a: nat, b: nat)
    requires (1 + n) * a == (1 + n) * b
    ensures a == b
  {
  }

  /** Two fixed pieces render as their texts. */
  lemma LitsRendered(a: string, b: string, source: string, key: string)
    ensures Render([Lit(a), Lit(b)], source, key) == a + b
  {
    var t := [Lit(a), Lit(b)];
    FillAbsent(t, SourceHole, source);
    FillAbsent(t, KeyHole, key);
    assert t[1..] == [Lit(b)] && t[1..][1..] == [];
    assert Written(t[1..]) == b + Written([]);
    assert Written(t) == a + Written(t[1..]);
  }

  /** A template of one key hole renders as the key. */
  lemma LoneKeyHole(source: string, key: string)
    ensures Render([Slot(KeyHole)], source, key) == key
  {
    var f := Fill([Slot(KeyHole)], SourceHole, source);
    assert f == [Slot(KeyHole)];
    var g := Fill(f, KeyHole, key);
    assert g == [Lit(key)];
    assert g[1..] == [];
    assert Written(g) == key + Written([]);
  }

  /** A template around a key hole, with no key hole before it, renders as
      its head, the key, and its tail. */
  lemma RenderAroundKey(p: Template, q: Template, source: string, key: string)
    requires Slot(KeyHole) !in p
    ensures Render(p + [Slot(KeyHole)] + q, source, key) == Render(p, source, "") + key + Render(q, source, key)
  {
    RenderAppend(p + [Slot(KeyHole)], q, source, key);
    RenderAppend(p, [Slot(KeyHole)], source, key);
    var f := Fill(p, SourceHole, source);
    FillAbsent(f, KeyHole, key);
    FillAbsent(f, KeyHole, "");
    LoneKeyHole(source, key);
  }

  /** The text put in a key hole can be read back from the rendered
      template: two keys that render the same are the same key. */
  lemma KeyRecoverable(p: Template, q: Template, source: string, k1: string, k2: string)
    requires Slot(KeyHole) !in p
    requires Render(p + [Slot(KeyHole)] + q, source, k1) == Render(p + [Slot(KeyHole)] + q, source, k2)
    ensures k1 == k2
  {
    RenderAroundKey(p, q, source, k1);
    RenderAroundKey(p, q, source, k2);
    var head := Render(p, source, "");
    var r1 := Render(q, source, k1);
    var r2 := Render(q, source, k2);
    assert head + k1 + r1 == head + k2 + r2;
    RenderLength(q, source, k1);
    RenderLength(q, source, k2);
    var n := Holes(q, KeyHole);
    assert |k1| + n * |k1| == |k2| + n * |k2|;
    Distribute(1, n, |k1|);
    Distribute(1, n, |k2|);
    CancelFactor(n, |k1|, |k2|);
    assert (head + k1 + r1)[|head|..|head| + |k1|] == k1;
    assert (head + k2 + r2)[|head|..|head| + |k2|] == k2;
  }

  lemma Framed(a: string, b: string, c: string, d: string)
    ensures StartsWith(a + b + c + d, a)
    ensures EndsWith(a + b + c + d, c + d)
  {
    assert a + b + c + d == a + (b + c + d);
    assert (a + (b + c + d))[..|a|] == a;
    assert a + b + c + d == (a + b) + (c + d);
    assert ((a + b) + (c + d))[|a + b|..] == c + d;
  }
}
