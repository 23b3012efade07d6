/**
 * `build_prompt`: the instruction text sent to the model. The requirement
 * names become `- name` lines joined by newlines inside a fixed template
 * that ends with the document text and one final newline.
 */
module Prompt {
  import opened Wrappers
  import opened Text

  /** DOCUMENT_TYPE. */
  const DocumentType: string := "CURR\U{CD}CULO"

  /** REQUIREMENTS: the rubric, in order. */
  const Requirements: seq<string> := [
    "Coer\U{EA}ncia geral",
    "Introdu\U{E7}\U{E3}o / Resumo profissional",
    "Forma\U{E7}\U{E3}o Acad\U{EA}mica",
    "Experi\U{EA}ncia Profissional"
  ]

  /** `sep.join(parts)`. */
  function JoinWith(parts: seq<string>, sep: string): (r: string)
    ensures parts == [] ==> r == ""
    ensures parts != [] ==> |parts[0]| <= |r| && r[..|parts[0]|] == parts[0]
  {
    if parts == [] then ""
    else if |parts| == 1 then parts[0]
    else parts[0] + sep + JoinWith(parts[1..], sep)
  }

  /** `s.split("\n")`: the pieces between newlines, always at least one. */
  function Lines(s: string): (r: seq<string>)
    ensures |r| >= 1
    decreases |s|
  {
    match Find(s, '\n')
    case None => [s]
    case Some(i) => [s[..i]] + Lines(s[i + 1..])
  }

  /** No line holds a newline. */
  lemma {:induction false} LinesHaveNoNewline(s: string)
    ensures forall i | 0 <= i < |Lines(s)| :: '\n' !in Lines(s)[i]
    decreases |s|
  {
    match Find(s, '\n')
    case None =>
    case Some(i) =>
      LinesHaveNoNewline(s[i + 1..]);
  }

  /** Splitting at a newline inserted between two strings splits each side separately. */
  lemma {:induction false} LinesConcat(a: string, b: string)
    ensures Lines(a + "\n" + b) == Lines(a) + Lines(b)
    decreases |a|
  {
    match Find(a, '\n')
    case None =>
      NewlineAfter(a, b);
    case Some(i) =>
      NewlineWithin(a, b, i);
      LinesConcat(a[i + 1..], b);
      ConsAppend(Lines(a + "\n" + b), a[..i], Lines(a[i + 1..] + "\n" + b), Lines(a[i + 1..]), Lines(a), Lines(b));
  }

  /** `w == [x] + (r + t)` when `w == [x] + v`, `v == r + t` and `u == [x] + r`, as `w == u + t`. */
  lemma ConsAppend<T>(w: seq<T>, x: T, v: seq<T>, r: seq<T>, u: seq<T>, t: seq<T>)
    requires w == [x] + v && v == r + t && u == [x] + r
    ensures w == u + t
  {
  }

  /** With no newline in `a`, the first line of `a \n b` is `a` and the rest is `b`. */
  lemma NewlineAfter(a: string, b: string)
    requires Find(a, '\n').None?
    ensures Lines(a + "\n" + b) == [a] + Lines(b)
  {
    var s := a + "\n" + b;
    assert s[..|a|] == a;
    FindIs(s, '\n', |a|);
    assert s[|a| + 1..] == b;
  }

  /** When `a` has a newline at `i`, the first line of `a \n b` ends there too. */
  lemma NewlineWithin(a: string, b: string, i: nat)
    requires Find(a, '\n') == Some(i)
    ensures Lines(a + "\n" + b) == [a[..i]] + Lines(a[i + 1..] + "\n" + b)
  {
    var s := a + "\n" + b;
    assert s[..i] == a[..i];
    FindIs(s, '\n', i);
    assert s[i + 1..] == a[i + 1..] + "\n" + b;
  }

  /** Joining lines that hold no newline and splitting again gives the lines back. */
  lemma {:induction false} LinesOfJoin(parts: seq<string>)
    requires parts != []
    requires forall i | 0 <= i < |parts| :: '\n' !in parts[i]
    ensures Lines(JoinWith(parts, "\n")) == parts
  {
    var head := parts[0];
    assert Find(head, '\n').None?;
    if |parts| > 1 {
      var tail := JoinWith(parts[1..], "\n");
      LinesOfJoin(parts[1..]);
      LinesConcat(head, tail);
      assert JoinWith(parts, "\n") == head + "\n" + tail;
      ConsBack(parts, Lines(head + "\n" + tail), Lines(head));
    }
  }

  /** A list rebuilt from a singleton of its first element and the rest of it is the list itself. */
  lemma ConsBack<T>(ps: seq<T>, l: seq<T>, first: seq<T>)
    requires ps != [] && first == [ps[0]] && l == first + ps[1..]
    ensures l == ps
  {
  }

  /** Splitting at newlines and joining with newlines gives the text back. */
  lemma {:induction false} JoinOfLines(s: string)
    ensures JoinWith(Lines(s), "\n") == s
    decreases |s|
  {
    match Find(s, '\n')
    case None =>
    case Some(i) =>
      JoinOfLines(s[i + 1..]);
      JoinStep(s, i, Lines(s), Lines(s[i + 1..]));
  }

  /** The line before a newline, joined in front of lines that give back the text after it, gives back the whole text. */
  lemma JoinStep(s: string, i: nat, ls: seq<string>, rest: seq<string>)
    requires i < |s| && s[i] == '\n' && rest != []
    requires ls == [s[..i]] + rest && JoinWith(rest, "\n") == s[i + 1..]
    ensures JoinWith(ls, "\n") == s
  {
    assert ls[1..] == rest;
    assert s == s[..i] + "\n" + s[i + 1..];
  }

  /** The requirement lines `- name`, one per requirement, in order. */
  function Bullets(requirements: seq<string>): (r: seq<string>)
    ensures |r| == |requirements|
    ensures forall i | 0 <= i < |r| :: r[i] == "- " + requirements[i]
  {
    seq(|requirements|, i requires 0 <= i < |requirements| => "- " + requirements[i])
  }

  /** `repr()` of one JSON_REQUIREMENTS item: a Python dict with single-quoted strings. */
  function TemplateItem(name: string): (r: string)
    ensures |r| > 10 + |name| && r[10..10 + |name|] == name
    ensures '"' !in name ==> '"' !in r
  {
    "{'item': '" + name + "', 'status': '', 'detalhes': ''}"
  }

  /** `repr(JSON_REQUIREMENTS)`, as the f-string renders it: one empty item per rubric requirement. */
  function TemplateItems(): (r: string)
    ensures 2 <= |r| && r[0] == '[' && r[|r| - 1] == ']'
  {
    "[" + JoinWith(TemplateItemList(), ", ") + "]"
  }

  /** The JSON_REQUIREMENTS items: one per rubric requirement, in rubric order, each naming it with empty status and details. */
  function TemplateItemList(): (items: seq<string>)
    ensures |items| == |Requirements|
    ensures forall i | 0 <= i < |items| :: items[i] == TemplateItem(Requirements[i])
  {
    seq(|Requirements|, i requires 0 <= i < |Requirements| => TemplateItem(Requirements[i]))
  }

  /** The rendered skeleton uses only single quotes: no double quote appears in it. */
  lemma TemplateUsesSingleQuotes()
    ensures '"' !in TemplateItems()
  {
    var items := TemplateItemList();
    RubricHasNoDoubleQuote();
    forall i | 0 <= i < |items| ensures '"' !in items[i] {
      assert '"' !in Requirements[i];
    }
    JoinKeepsOut(items, ", ", '"');
  }

  /** No rubric name contains a double quote. */
  lemma RubricHasNoDoubleQuote()
    ensures forall i | 0 <= i < |Requirements| :: '"' !in Requirements[i]
  {
  }

  /** A character that occurs neither in the parts nor in the separator does not occur in their join. */
  lemma {:induction false} JoinKeepsOut(parts: seq<string>, sep: string, c: char)
    requires c !in sep
    requires forall i | 0 <= i < |parts| :: c !in parts[i]
    ensures c !in JoinWith(parts, sep)
    decreases |parts|
  {
    if |parts| > 1 {
      JoinKeepsOut(parts[1..], sep, c);
      assert JoinWith(parts, sep) == parts[0] + sep + JoinWith(parts[1..], sep);
    }
  }

  /** The template's opening lines, before the `REQUISITOS:` header. */
  function Opening(): string
  {
    "\nAnalise o " + DocumentType + " abaixo segundo os requisitos a seguir:\n"
  }

  /** The template up to and including the `REQUISITOS:` header. */
  function Intro(): string
  {
    Opening() + "\n" + "REQUISITOS:"
  }

  /** The output-format instructions and the JSON skeleton, between the requirement lines and the document header. */
  function Instructions(): string
  {
    "\nFORMATO OBRIGAT\U{D3}RIO DA RESPOSTA:\n" +
    "Retorne APENAS um JSON v\U{E1}lido (RFC 8259).\n" +
    "Use exclusivamente aspas duplas.\n" +
    "N\U{C3}O use aspas simples.\n" +
    "N\U{C3}O adicione texto antes ou depois\n" +
    "\n" +
    "{\n" +
    "  \"validacao\":" + TemplateItems() + ",\n" +
    "  \"pontuacao_final\": \"0-100\",\n" +
    "  \"melhorias_recomendadas\": \"\"\n" +
    "}\n"
  }

  /** The template between the requirement lines and the document text, ending with the `CURRÍCULO:` header. */
  function Middle(): string
  {
    Instructions() + "\n" + (DocumentType + ":")
  }

  /** The f-string's layout: intro, requirement lines, middle and document text, each followed by a newline. */
  function Assemble(intro: string, reqs: string, middle: string, text: string): string
  {
    intro + "\n" + (reqs + "\n" + (middle + "\n" + (text + "\n")))
  }

  /**
   * `build_prompt(text, requirements)`. The prompt opens with the fixed
   * intro and closes with the `CURRÍCULO:` header, a newline, the document
   * text and one final newline.
   */
  function BuildPrompt(text: string, requirements: seq<string>): (p: string)
    ensures Framed(p, Intro(), DocumentType + ":", text)
  {
    Frame(Intro(), JoinWith(Bullets(requirements), "\n"), Instructions(), DocumentType + ":", text);
    Assemble(Intro(), JoinWith(Bullets(requirements), "\n"), Middle(), text)
  }

  /** `p` starts with `intro` and ends with `header`, a newline, `text` and a newline. */
  predicate Framed(p: string, intro: string, header: string, text: string)
  {
    |p| >= |intro| + |header| + |text| + 2 &&
    p[..|intro|] == intro && p[|p| - |header| - |text| - 2..] == header + "\n" + text + "\n"
  }

  /** In `a \n b \n c \n h \n d \n`, `a` is a prefix and `h \n d \n` a suffix. */
  lemma Frame(a: string, b: string, c: string, h: string, d: string)
    ensures Framed(Assemble(a, b, c + "\n" + h, d), a, h, d)
  {
    var w := Assemble(a, b, c + "\n" + h, d);
    var front := a + "\n" + b + "\n" + c + "\n";
    var back := h + "\n" + d + "\n";
    assert w == front + back;
    assert w[..|a|] == a;
    assert w[|front|..] == back;
  }

  /**
   * Read line by line, the prompt is the template's opening lines, the
   * `REQUISITOS:` header, then one `- name` line per requirement in input
   * order, then the instruction lines, the `CURRÍCULO:` header, the
   * document's own lines and a final empty line (the prompt ends with a
   * newline). With no requirements a single empty line stands where the list
   * would be.
   */
  lemma PromptLines(text: string, requirements: seq<string>)
    requires forall i | 0 <= i < |requirements| :: '\n' !in requirements[i]
    ensures Lines(BuildPrompt(text, requirements)) ==
      Lines(Opening()) + (["REQUISITOS:"] + ((if requirements == [] then [""] else Bullets(requirements)) +
      (Lines(Instructions()) + ([DocumentType + ":"] + (Lines(text) + [""])))))
  {
    var reqText := JoinWith(Bullets(requirements), "\n");
    LinesAround(Intro(), reqText, Middle(), text);
    IntroLines();
    MiddleLines();
    RequirementLines(requirements);
    Reassociate(Lines(Opening()), ["REQUISITOS:"], Lines(reqText), Lines(Instructions()), [DocumentType + ":"], Lines(text) + [""]);
  }

  /** The requirement block splits into exactly the `- name` lines (one empty line when there are none). */
  lemma RequirementLines(requirements: seq<string>)
    requires forall i | 0 <= i < |requirements| :: '\n' !in requirements[i]
    ensures Lines(JoinWith(Bullets(requirements), "\n")) == if requirements == [] then [""] else Bullets(requirements)
  {
    var bullets := Bullets(requirements);
    forall i | 0 <= i < |bullets| ensures '\n' !in bullets[i] {
      assert bullets[i] == "- " + requirements[i];
    }
    if requirements != [] {
      LinesOfJoin(bullets);
    } else {
      assert Lines(JoinWith(bullets, "\n")) == Lines("") == [""];
    }
  }

  /** Regrouping a concatenation of six pieces. */
  lemma Reassociate<T>(a: seq<T>, r: seq<T>, b: seq<T>, c: seq<T>, h: seq<T>, d: seq<T>)
    ensures (a + r) + (b + ((c + h) + d)) == a + (r + (b + (c + (h + d))))
  {
  }

  /** `REQUISITOS:` is a single line. */
  lemma RequisitosIsOneLine()
    ensures Lines("REQUISITOS:") == ["REQUISITOS:"]
  {
    assert '\n' !in "REQUISITOS:";
  }

  /** `CURRÍCULO:` is a single line. */
  lemma DocumentHeaderIsOneLine()
    ensures Lines(DocumentType + ":") == [DocumentType + ":"]
  {
    assert '\n' !in DocumentType + ":";
  }

  /** `REQUISITOS:` is the last line of the intro. */
  lemma IntroLines()
    ensures Lines(Intro()) == Lines(Opening()) + ["REQUISITOS:"]
  {
    LinesConcat(Opening(), "REQUISITOS:");
    RequisitosIsOneLine();
  }

  /** `CURRÍCULO:` is the last line of the middle part. */
  lemma MiddleLines()
    ensures Lines(Middle()) == Lines(Instructions()) + [DocumentType + ":"]
  {
    LinesConcat(Instructions(), DocumentType + ":");
    DocumentHeaderIsOneLine();
  }

  /** The line structure of `head \n body \n tail \n text \n`, with no template text involved. */
  lemma LinesAround(head: string, body: string, tail: string, text: string)
    ensures Lines(Assemble(head, body, tail, text)) ==
      Lines(head) + (Lines(body) + (Lines(tail) + (Lines(text) + [""])))
  {
    var t1 := text + "\n";
    LinesConcat(text, "");
    assert text + "\n" + "" == t1;
    assert Lines("") == [""];
    var t2 := tail + "\n" + t1;
    LinesConcat(tail, t1);
    var t3 := body + "\n" + t2;
    LinesConcat(body, t2);
    var t4 := head + "\n" + t3;
    LinesConcat(head, t3);
  }

  /** The prompt determines the document text: two prompts over the same rubric are equal only for equal texts. */
  lemma PromptDeterminesText(t1: string, t2: string, requirements: seq<string>)
    requires BuildPrompt(t1, requirements) == BuildPrompt(t2, requirements)
    ensures t1 == t2
  {
    LastPieceDetermined(Intro(), JoinWith(Bullets(requirements), "\n"), Middle(), t1, t2);
  }

  /** In `h \n r \n m \n t \n` the last piece `t` is fixed by the whole once `h`, `r` and `m` are. */
  lemma LastPieceDetermined(h: string, r: string, m: string, t1: string, t2: string)
    requires Assemble(h, r, m, t1) == Assemble(h, r, m, t2)
    ensures t1 == t2
  {
    var w := h + "\n" + (r + "\n" + (m + "\n" + (t1 + "\n")));
    var k := |h| + |r| + |m| + 3;
    assert |t1| == |t2|;
    forall i | 0 <= i < |t1| ensures t1[i] == t2[i] {
      assert w[k + i] == t1[i];
      assert w[k + i] == t2[i];
    }
  }

  /** The rubric names hold no newline, so each becomes exactly one line of the prompt. */
  lemma RequirementsAreSingleLines()
    ensures forall i | 0 <= i < |Requirements| :: '\n' !in Requirements[i]
  {
  }
}
