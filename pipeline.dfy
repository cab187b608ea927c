/** The text-correction pipeline of `process_text`: HTML detection, the input
    checks, the request sent to the completion service, the clean-up of its
    reply, the HTML reassembly and the statistics. The completion service and
    the HTML text extractor are opaque parameters; the elapsed processing time
    is an input. */
module Pipeline {
  import opened Outcomes
  import opened Text
  import opened Anonymiser

  /** An entry of the agent registry. Its prompt template has one insertion
      point: it reads `promptBefore + "{}" + promptAfter`. */
  datatype Agent = Agent(
    name: string,
    description: string,
    promptBefore: string,
    promptAfter: string,
    model: string,
    accessLevel: string)

  /** `agent.prompt_template.format(texte)`: the text goes in place of the
      template's placeholder, with the template's text on either side. */
  function Prompt(agent: Agent, texte: string): (p: string)
    ensures |p| == |agent.promptBefore| + |texte| + |agent.promptAfter|
    ensures p[..|agent.promptBefore|] == agent.promptBefore
    ensures p[|agent.promptBefore|..|agent.promptBefore| + |texte|] == texte
    ensures p[|agent.promptBefore| + |texte|..] == agent.promptAfter
  {
    agent.promptBefore + texte + agent.promptAfter
  }

  /** The name, description and prompt template of the `jurifix` agent. */
  const JurifixName: string := "JuriFix - Correction Orthographique Précise"
  const JurifixDescription: string := "Corrige uniquement l'orthographe et la grammaire sans modifier le style ou les formulations juridiques"
  const JurifixPromptBefore: string := "Tu es un correcteur orthographique expert spécialisé en textes juridiques.\n\nRÈGLES ABSOLUES À RESPECTER :\n1. Corrige UNIQUEMENT l'orthographe, la grammaire et la ponctuation\n2. Ne change JAMAIS les formulations, le style ou le vocabulaire juridique\n3. Préserve ABSOLUMENT la structure et la longueur des phrases\n4. Ne reformule RIEN, ne résume RIEN, ne raccourcis RIEN\n5. Garde exactement le même niveau de langage et le même ton\n6. Conserve tous les termes juridiques techniques tels quels\n7. Retourne UNIQUEMENT le texte corrigé, sans aucun commentaire avant ou après\n8. Préserve EXACTEMENT le nombre de mots et la structure des phrases\n\nTexte à corriger : \"\"\""
  const JurifixPromptAfter: string := "\"\"\"\n\nRetourne UNIQUEMENT le texte corrigé :"

  /** The registry `AGENTS`: a single spelling-and-grammar agent, run on
      `gpt-4` and open to the `collaborateur` access level. */
  function Registry(): (r: map<string, Agent>)
    ensures r.Keys == {"jurifix"}
    ensures r["jurifix"].model == "gpt-4" && r["jurifix"].accessLevel == "collaborateur"
    ensures r["jurifix"].promptBefore == JurifixPromptBefore && r["jurifix"].promptAfter == JurifixPromptAfter
  {
    map["jurifix" := Agent(JurifixName, JurifixDescription, JurifixPromptBefore, JurifixPromptAfter, "gpt-4", "collaborateur")]
  }

  /** The fixed system message sent with every correction request. */
  const SystemInstruction: string :=
    "Tu es un correcteur orthographique expert. Tu corriges UNIQUEMENT l'orthographe et la grammaire. Retourne le texte corrigé sans guillemets, sans commentaires, sans préambule."

  datatype Message = Message(role: string, content: string)

  /** What `client.chat.completions.create` is called with. */
  datatype CompletionRequest = CompletionRequest(
    model: string,
    messages: seq<Message>,
    temperature: real,
    maxTokens: int)

  /** The JSON body of `POST /api/process-text`, absent keys already replaced by
      their defaults (`""` for the text, `"jurifix"` for the agent). */
  datatype ProcessRequest = ProcessRequest(texte: string, agent: string, documentId: Option<string>)

  datatype ProcessFailure =
    | EmptyText        // "Texte vide"
    | UnknownAgent     // "Agent non reconnu"
    | ProcessingError  // any exception raised while correcting

  function StatusCode(f: ProcessFailure): int {
    match f
    case EmptyText => 400
    case UnknownAgent => 400
    case ProcessingError => 500
  }

  datatype Stats = Stats(processingTime: real, wordCount: nat, correctionsCount: nat)

  /** The success body: the corrected text, the agent's key and the statistics. */
  datatype Corrected = Corrected(resultat: string, agentUsed: string, stats: Stats)

  /** The editor sends HTML when the text holds a `<p>` or a `<div>` tag. */
  predicate IsHtml(texte: string) {
    Contains(texte, "<p>") || Contains(texte, "<div>")
  }

  /** Text without a `<` holds no tag: it is plain text and is used as it is. */
  lemma TagFreeTextIsPlain(texte: string, extract: string -> string)
    requires '<' !in texte
    ensures !IsHtml(texte)
    ensures PlainText(texte, extract) == texte
  {
    forall i: int ensures !OccursAt(texte, "<p>", i) && !OccursAt(texte, "<div>", i) {
      if 0 <= i < |texte| {
        assert texte[i] != '<';
      }
    }
  }

  /** Text holding a `<p>` or a `<div>` anywhere is HTML, and what is corrected
      is the extractor's text. */
  lemma TagMakesHtml(a: string, tag: string, b: string, extract: string -> string)
    requires tag == "<p>" || tag == "<div>"
    ensures IsHtml(a + tag + b)
    ensures PlainText(a + tag + b, extract) == extract(a + tag + b)
  {
    assert OccursAt(a + tag + b, tag, |a|);
  }

  /** `texte_brut`: the extractor's text for HTML input, the input itself otherwise. */
  function PlainText(texte: string, extract: string -> string): string {
    if IsHtml(texte) then extract(texte) else texte
  }

  /** The request sent for an anonymised text: the agent's model, the fixed system
      message and the filled-in template, temperature 0, and a budget of three
      response tokens per word of the anonymised text. */
  function BuildRequest(agent: Agent, anonymised: string): (req: CompletionRequest)
    ensures req.model == agent.model && req.temperature == 0.0
    ensures req.messages == [Message("system", SystemInstruction), Message("user", Prompt(agent, anonymised))]
    ensures req.maxTokens == 3 * Runs(anonymised, false)
  {
    WordCountIsRunCount(anonymised);
    CompletionRequest(
      agent.model,
      [Message("system", SystemInstruction), Message("user", Prompt(agent, anonymised))],
      0.0,
      WordCount(anonymised) * 3)
  }

  /** `t[1:-1]` in Python. */
  function DropEnds(t: string): (r: string)
    ensures |r| == if |t| < 2 then 0 else |t| - 2
    ensures forall k | 0 <= k < |r| :: r[k] == t[k + 1]
  {
    if |t| < 2 then [] else t[1..|t| - 1]
  }

  /** `t.startswith(q) and t.endswith(q)`: true of a lone `q` as well. */
  predicate QuotedBy(t: string, q: char) {
    |t| >= 1 && t[0] == q && t[|t| - 1] == q
  }

  /** The quote clean-up of the reply: one layer of double quotes is removed,
      then, independently, one layer of single quotes. What is left is the middle
      of `t`, with as many characters gone from each end, at most two. */
  function StripQuotes(t: string): (r: string)
    ensures |t| - 4 <= |r| <= |t|
    ensures r == t[(|t| - |r|) / 2..(|t| - |r|) / 2 + |r|]
    ensures !QuotedBy(t, '"') && !QuotedBy(t, '\'') ==> r == t
    ensures QuotedBy(t, '"') || QuotedBy(t, '\'') ==> |r| < |t|
  {
    var u := if QuotedBy(t, '"') then DropEnds(t) else t;
    var a := if QuotedBy(t, '"') && |t| >= 2 then 1 else 0;
    assert u == t[a..a + |u|];
    var r := if QuotedBy(u, '\'') then DropEnds(u) else u;
    var b := if QuotedBy(u, '\'') && |u| >= 2 then 1 else 0;
    assert r == u[b..b + |r|];
    assert r == t[a + b..a + b + |r|];
    assert r != [] ==> |t| - |r| == 2 * (a + b);
    r
  }

  /** `"x"` becomes `x` when `x` is not itself in single quotes. */
  lemma StripsDoubleQuotes(x: string)
    requires !QuotedBy(x, '\'')
    ensures StripQuotes(['"'] + x + ['"']) == x
  {
    assert DropEnds(['"'] + x + ['"']) == x;
  }

  /** Text in single quotes but not in double quotes loses exactly its first
      and last character. */
  lemma StripsOnlySingleLayer(t: string)
    requires !QuotedBy(t, '"') && QuotedBy(t, '\'')
    ensures StripQuotes(t) == DropEnds(t)
  {
  }

  /** `"'x'"` becomes `x`: both kinds of quote are removed, double first. */
  lemma StripsDoubleThenSingle(x: string)
    ensures StripQuotes(['"', '\''] + x + ['\'', '"']) == x
  {
    var t := ['"', '\''] + x + ['\'', '"'];
    assert DropEnds(t) == ['\''] + x + ['\''];
    assert DropEnds(['\''] + x + ['\'']) == x;
  }

  /** A single layer of single quotes is removed. */
  lemma StripsSingleQuotes(x: string)
    ensures StripQuotes(['\''] + x + ['\'']) == x
  {
    assert DropEnds(['\''] + x + ['\'']) == x;
  }

  /** Only one layer of double quotes goes: `""x""` becomes `"x"`. */
  lemma StripsOneDoubleLayer(x: string)
    ensures StripQuotes(['"', '"'] + x + ['"', '"']) == ['"'] + x + ['"']
  {
    var t := ['"', '"'] + x + ['"', '"'];
    assert DropEnds(t) == ['"'] + x + ['"'];
  }

  /** `"x"` with `x` itself in single quotes loses both layers: `x` without its
      ends. With `StripsDoubleQuotes`, `StripsOnlySingleLayer` and the identity
      on unquoted text this fixes the value on every input. */
  lemma StripsDoubleAroundSingle(x: string)
    requires QuotedBy(x, '\'')
    ensures StripQuotes(['"'] + x + ['"']) == DropEnds(x)
  {
    assert DropEnds(['"'] + x + ['"']) == x;
  }

  /** A lone quote character becomes the empty string. */
  lemma LoneQuoteVanishes()
    ensures StripQuotes("\"") == "" && StripQuotes("'") == ""
  {
  }

  /** The reply as the pipeline keeps it: stripped of surrounding whitespace, then
      of its quotes. */
  function CleanReply(raw: string): string {
    StripQuotes(Strip(raw))
  }

  /** A reply that is a text in double quotes, padded with whitespace, comes
      back as the text. */
  lemma CleanReplyUnquotes(pre: string, x: string, post: string)
    requires IsBlank(pre) && IsBlank(post) && !QuotedBy(x, '\'')
    ensures CleanReply(pre + (['"'] + x + ['"']) + post) == x
  {
    StripInvertsPadding(pre, ['"'] + x + ['"'], post);
    StripsDoubleQuotes(x);
  }

  /** A reply without quotes at its ends loses only its surrounding whitespace. */
  lemma CleanReplyTrims(pre: string, x: string, post: string)
    requires IsBlank(pre) && IsBlank(post)
    requires x == [] || (!IsSpace(x[0]) && !IsSpace(x[|x| - 1]))
    requires !QuotedBy(x, '"') && !QuotedBy(x, '\'')
    ensures CleanReply(pre + x + post) == x
  {
    StripInvertsPadding(pre, x, post);
  }

  /** The segments of `texte.split('\n')` that are not blank, in order. */
  function NonBlank(segs: seq<string>): (r: seq<string>)
    ensures |r| <= |segs|
    ensures forall k | 0 <= k < |r| :: !IsBlank(r[k]) && r[k] in segs
    ensures forall k | 0 <= k < |segs| :: !IsBlank(segs[k]) ==> segs[k] in r
  {
    if segs == [] then []
    else if IsBlank(segs[0]) then NonBlank(segs[1..])
    else [segs[0]] + NonBlank(segs[1..])
  }

  /** `''.join([f'<p>{p}</p>' for p in ps])`: each element costs exactly one
      `<p>` and one `</p>`, so the result is the elements' characters plus seven
      per element. */
  function WrapAll(ps: seq<string>): (r: string)
    ensures |r| == |Flatten(ps)| + 7 * |ps|
  {
    if ps == [] then [] else "<p>" + ps[0] + "</p>" + WrapAll(ps[1..])
  }

  /** Every line is blank. */
  predicate AllBlank(ps: seq<string>) {
    forall k | 0 <= k < |ps| :: IsBlank(ps[k])
  }

  lemma AllBlankCons(x: string, ps: seq<string>)
    ensures AllBlank([x] + ps) <==> IsBlank(x) && AllBlank(ps)
  {
    var xs := [x] + ps;
    if IsBlank(x) && AllBlank(ps) {
      forall k | 0 <= k < |xs| ensures IsBlank(xs[k]) {
        if k > 0 { assert xs[k] == ps[k - 1]; }
      }
    }
    if AllBlank(xs) {
      assert IsBlank(xs[0]);
      forall k | 0 <= k < |ps| ensures IsBlank(ps[k]) {
        assert ps[k] == xs[k + 1];
      }
    }
  }

  /** A text is blank exactly when each of its lines is. */
  lemma {:induction false} BlankLines(t: string)
    ensures IsBlank(t) <==> AllBlank(SplitLines(t))
  {
    if t != [] {
      BlankLines(t[1..]);
      var rest := SplitLines(t[1..]);
      assert IsBlank(t) <==> IsSpace(t[0]) && IsBlank(t[1..]) by {
        assert forall k | 1 <= k < |t| :: t[k] == t[1..][k - 1];
      }
      assert rest == [rest[0]] + rest[1..];
      AllBlankCons(rest[0], rest[1..]);
      if t[0] != '\n' {
        var first := [t[0]] + rest[0];
        assert IsBlank(first) <==> IsSpace(t[0]) && IsBlank(rest[0]) by {
          assert first[0] == t[0];
          assert forall k | 1 <= k < |first| :: first[k] == rest[0][k - 1];
          assert forall k | 0 <= k < |rest[0]| :: rest[0][k] == first[k + 1];
        }
        assert SplitLines(t) == [first] + rest[1..];
        AllBlankCons(first, rest[1..]);
      } else {
        assert SplitLines(t) == [[]] + rest;
        AllBlankCons([], rest);
      }
    }
  }

  /** The HTML rebuilt from a corrected text: one `<p>` element per non-blank
      line, so nothing at all when the text is blank. */
  function Reassemble(t: string): (r: string)
    ensures r == [] <==> IsBlank(t)
  {
    BlankLines(t);
    var kept := NonBlank(SplitLines(t));
    assert kept == [] <==> AllBlank(SplitLines(t)) by {
      if kept != [] {
        assert kept[0] in SplitLines(t);
      }
    }
    WrapAll(kept)
  }

  lemma {:induction false} NonBlankAppend(xs: seq<string>, ys: seq<string>)
    ensures NonBlank(xs + ys) == NonBlank(xs) + NonBlank(ys)
  {
    if xs == [] {
      assert xs + ys == ys;
    } else {
      assert (xs + ys)[1..] == xs[1..] + ys;
      NonBlankAppend(xs[1..], ys);
    }
  }

  lemma {:induction false} WrapAllAppend(xs: seq<string>, ys: seq<string>)
    ensures WrapAll(xs + ys) == WrapAll(xs) + WrapAll(ys)
  {
    if xs == [] {
      assert xs + ys == ys;
    } else {
      assert (xs + ys)[1..] == xs[1..] + ys;
      WrapAllAppend(xs[1..], ys);
    }
  }

  /** Reassembly works line by line: a newline separates the paragraphs of what
      precedes it from those of what follows it. */
  lemma ReassembleAtNewline(a: string, b: string)
    ensures Reassemble(a + "\n" + b) == Reassemble(a) + Reassemble(b)
  {
    SplitLinesAtNewline(a, b);
    NonBlankAppend(SplitLines(a), SplitLines(b));
    WrapAllAppend(NonBlank(SplitLines(a)), NonBlank(SplitLines(b)));
  }

  lemma {:induction false} SplitLinesOfLine(t: string)
    requires '\n' !in t
    ensures SplitLines(t) == [t]
  {
    if t != [] {
      assert '\n' !in t[1..] by { assert t == [t[0]] + t[1..]; }
      SplitLinesOfLine(t[1..]);
      assert t == [t[0]] + t[1..];
    }
  }

  /** A single line becomes one paragraph, or nothing when it is blank. */
  lemma ReassembleLine(t: string)
    requires '\n' !in t
    ensures Reassemble(t) == if IsBlank(t) then "" else "<p>" + t + "</p>"
  {
    SplitLinesOfLine(t);
    assert [t][1..] == [];
    assert NonBlank([t]) == if IsBlank(t) then [] else [t];
    if !IsBlank(t) {
      assert WrapAll([t]) == "<p>" + t + "</p>" + WrapAll([]);
    }
  }

  function Abs(x: int): nat {
    if x < 0 then -x else x
  }

  /** `corrections_count`: 0 when the texts are equal, otherwise the difference
      in word counts, but at least 1. */
  function CorrectionsCount(brut: string, corrige: string): (r: nat)
    ensures r == 0 <==> brut == corrige
    ensures brut != corrige ==> r >= 1 && r >= Abs(WordCount(brut) - WordCount(corrige))
    ensures brut != corrige ==> r == 1 || r == Abs(WordCount(brut) - WordCount(corrige))
  {
    if brut == corrige then 0
    else
      var d := Abs(WordCount(brut) - WordCount(corrige));
      if d < 1 then 1 else d
  }

  /** The corrected text of a reply: cleaned, and rebuilt as paragraphs when the
      input was HTML. A plain input gets the cleaned reply back; an HTML input
      gets nothing for a blank reply and one paragraph for a one-line reply. */
  function Restructure(texte: string, reply: string): (r: string)
    ensures !IsHtml(texte) ==> r == CleanReply(reply)
    ensures IsHtml(texte) ==> (r == [] <==> IsBlank(CleanReply(reply)))
    ensures IsHtml(texte) && '\n' !in CleanReply(reply) && !IsBlank(CleanReply(reply)) ==>
      r == "<p>" + CleanReply(reply) + "</p>"
  {
    var corrige := CleanReply(reply);
    if IsHtml(texte) then
      if '\n' !in corrige then ReassembleLine(corrige); Reassemble(corrige)
      else Reassemble(corrige)
    else corrige
  }

  /** `process_text` without its store update. `complete` stands for the
      completion service (`None` when the call raises), `extract` for the HTML text
      extractor, `elapsed` for the measured processing time. */
  function Process(
    req: ProcessRequest,
    registry: map<string, Agent>,
    extract: string -> string,
    complete: CompletionRequest -> Option<string>,
    elapsed: real): (r: Result<Corrected, ProcessFailure>)
    ensures r == Err(EmptyText) <==> IsBlank(PlainText(req.texte, extract))
    ensures r == Err(UnknownAgent) <==> !IsBlank(PlainText(req.texte, extract)) && req.agent !in registry
    ensures r == Err(ProcessingError) <==>
      !IsBlank(PlainText(req.texte, extract)) && req.agent in registry &&
      complete(BuildRequest(registry[req.agent], Anonymise(PlainText(req.texte, extract)))).None?
    ensures r.Ok? ==> req.agent in registry && r.value.agentUsed == req.agent
    ensures r.Ok? ==> r.value.stats.wordCount == Runs(PlainText(req.texte, extract), false)
    ensures r.Ok? ==> r.value.stats.processingTime == elapsed
    ensures r.Ok? ==> r.value.stats.correctionsCount == CorrectionsCount(PlainText(req.texte, extract), r.value.resultat)
    ensures r.Ok? ==> (r.value.stats.correctionsCount == 0 <==> r.value.resultat == PlainText(req.texte, extract))
    ensures r.Ok? ==> exists reply :: complete(BuildRequest(registry[req.agent], Anonymise(PlainText(req.texte, extract)))) == Some(reply)
                                    && r.value.resultat == Restructure(req.texte, reply)
  {
    var brut := PlainText(req.texte, extract);
    if IsBlank(brut) then Err(EmptyText)
    else if req.agent !in registry then Err(UnknownAgent)
    else
      var anonyme := Anonymise(brut);
      match complete(BuildRequest(registry[req.agent], anonyme))
      case None => Err(ProcessingError)
      case Some(reply) =>
        var corrige := Restructure(req.texte, reply);
        WordCountIsRunCount(brut);
        Ok(Corrected(corrige, req.agent, Stats(elapsed, WordCount(brut), CorrectionsCount(brut, corrige))))
  }

  /** The two input checks come before any call to the completion service: a
      rejected request's answer does not depend on the service or on the clock. */
  lemma RejectionsNeverCallCompletion(
    req: ProcessRequest,
    registry: map<string, Agent>,
    extract: string -> string,
    complete1: CompletionRequest -> Option<string>,
    complete2: CompletionRequest -> Option<string>,
    elapsed1: real,
    elapsed2: real)
    requires IsBlank(PlainText(req.texte, extract)) || req.agent !in registry
    ensures Process(req, registry, extract, complete1, elapsed1) == Process(req, registry, extract, complete2, elapsed2)
    ensures Process(req, registry, extract, complete1, elapsed1).Err?
    ensures StatusCode(Process(req, registry, extract, complete1, elapsed1).error) == 400
  {
  }

  /** Against the registry `AGENTS`, `jurifix` is the only agent served: any
      other name on a non-empty text is answered 400 "Agent non reconnu", and
      a served request goes to `gpt-4`. */
  lemma OnlyJurifixIsServed(
    req: ProcessRequest,
    extract: string -> string,
    complete: CompletionRequest -> Option<string>,
    elapsed: real)
    requires !IsBlank(PlainText(req.texte, extract))
    ensures Process(req, Registry(), extract, complete, elapsed) == Err(UnknownAgent) <==> req.agent != "jurifix"
    ensures req.agent == "jurifix" ==>
      BuildRequest(Registry()["jurifix"], Anonymise(PlainText(req.texte, extract))).model == "gpt-4"
  {
  }

  /** In HTML mode a one-line reply comes back as a single paragraph, and the
      correction count compares the plain text with that paragraph. */
  lemma HtmlReplyIsOneParagraph(
    req: ProcessRequest,
    registry: map<string, Agent>,
    extract: string -> string,
    complete: CompletionRequest -> Option<string>,
    elapsed: real,
    reply: string)
    requires IsHtml(req.texte)
    requires !IsBlank(PlainText(req.texte, extract)) && req.agent in registry
    requires complete(BuildRequest(registry[req.agent], Anonymise(PlainText(req.texte, extract)))) == Some(reply)
    requires '\n' !in CleanReply(reply) && !IsBlank(CleanReply(reply))
    ensures var html := "<p>" + CleanReply(reply) + "</p>";
      Process(req, registry, extract, complete, elapsed)
      == Ok(Corrected(html, req.agent,
                      Stats(elapsed, WordCount(PlainText(req.texte, extract)),
                            CorrectionsCount(PlainText(req.texte, extract), html))))
  {
    ReassembleLine(CleanReply(reply));
  }

  /** Wrapping newline-free segments yields a newline-free text. */
  lemma {:induction false} WrapAllNoNewline(ps: seq<string>)
    requires forall k | 0 <= k < |ps| :: '\n' !in ps[k]
    ensures '\n' !in WrapAll(ps)
  {
    if ps != [] {
      WrapAllNoNewline(ps[1..]);
      assert WrapAll(ps) == "<p>" + ps[0] + "</p>" + WrapAll(ps[1..]);
    }
  }

  /** The rebuilt HTML never contains a newline. */
  lemma ReassembleNoNewline(t: string)
    ensures '\n' !in Reassemble(t)
  {
    var kept := NonBlank(SplitLines(t));
    WrapAllNoNewline(kept);
  }

  /** Cleaning a reply keeps a middle slice of it, so it adds no newline. */
  lemma CleanReplyNoNewline(t: string)
    requires '\n' !in t
    ensures '\n' !in CleanReply(t)
  {
    StripKeepsAbsent(t, '\n');
  }

  /** The paragraphs rebuilt from a non-blank text are never that text: either
      it holds a newline, which no rebuilt HTML does, or it is one line and the
      paragraph tags make the result longer than the text. */
  lemma RestructuredHtmlIsNew(texte: string, brut: string)
    requires IsHtml(texte) && !IsBlank(brut)
    ensures Restructure(texte, brut) != brut
  {
    assert Restructure(texte, brut) == Reassemble(CleanReply(brut));
    ReassembledIsNotSource(brut);
  }

  /** A non-blank text is not the HTML rebuilt from its own cleaned form. With a
      newline it cannot be, as the HTML has none; on one line the HTML is
      `<p>c</p>`, which cleaning leaves as it is, while cleaning the text gives
      the shorter `c`. */
  lemma ReassembledIsNotSource(brut: string)
    requires !IsBlank(brut)
    ensures Reassemble(CleanReply(brut)) != brut
  {
    var c := CleanReply(brut);
    ReassembleNoNewline(c);
    assert brut != [];
    if '\n' !in brut {
      CleanReplyNoNewline(brut);
      ReassembleLine(c);
      if !IsBlank(c) {
        var t := "<p>" + c + "</p>";
        assert [] + t + [] == t;
        CleanReplyTrims([], t, []);
        assert CleanReply(t) != c;
      }
    }
  }

  /** Because of that comparison, an HTML text the service returns unchanged
      still reports at least one correction: the rebuilt paragraphs never equal
      the extracted plain text. */
  lemma UnchangedHtmlCountsOneCorrection(
    req: ProcessRequest,
    registry: map<string, Agent>,
    extract: string -> string,
    complete: CompletionRequest -> Option<string>,
    elapsed: real)
    requires IsHtml(req.texte)
    requires !IsBlank(PlainText(req.texte, extract)) && req.agent in registry
    requires var brut := PlainText(req.texte, extract);
      complete(BuildRequest(registry[req.agent], Anonymise(brut))) == Some(brut)
    ensures Process(req, registry, extract, complete, elapsed).Ok?
    ensures Process(req, registry, extract, complete, elapsed).value.stats.correctionsCount >= 1
  {
    RestructuredHtmlIsNew(req.texte, PlainText(req.texte, extract));
  }
}
