/**
 * The web page of the final ranking (`generar_html.py`): the per-row mapping into the
 * JavaScript array (short institution name, discipline abbreviation, cleaned topics, the
 * name as shown) and the summary figures above the table. The array reaches the page as
 * the output of `json.dumps`, read back by the browser as a JavaScript literal; both sides of
 * that string encoding are modelled, so that what the page shows can be stated.
 */
module GenerarHtml {
  import opened Wrappers
  import opened Text
  import opened Seqs
  import ProcesarRanking

  // ---------------------------------------------------------------- normalizar_institucion

  /** The short names of this page; a different table from the one of the processing step. */
  const INSTITUCIONES_CORTAS: map<string, string> := map[
    "Pontificia Universidad Cat\U{F3}lica de Chile" := "PUC Chile",
    "University of Chile" := "U. Chile",
    "Universidad de Santiago de Chile" := "USACH",
    "Universidad Diego Portales" := "UDP",
    "Adolfo Ib\U{E1}\U{F1}ez University" := "UAI",
    "University of Talca" := "U. Talca",
    "Universidad Mayor" := "U. Mayor",
    "Pontificia Universidad Cat\U{F3}lica de Valpara\U{ED}so" := "PUCV",
    "Federico Santa Mar\U{ED}a Technical University" := "USM",
    "Austral University of Chile" := "UACh",
    "University of Valpara\U{ED}so" := "UV",
    "University of Concepci\U{F3}n" := "UdeC",
    "Universidad de Los Andes, Chile" := "U. Andes",
    "Centro de Estudios Cient\U{ED}ficos" := "CECS",
    "Centro de Recursos Educativos Avanzados" := "CREA",
    "Universidad Andr\U{E9}s Bello" := "UNAB",
    "Universidad del Desarrollo" := "UDD",
    "Universidad Alberto Hurtado" := "UAH",
    "Finis Terrae University" := "U. Finis Terrae",
    "San Sebasti\U{E1}n University" := "USS",
    "Universidad La Rep\U{FA}blica" := "ULAR",
    "Universidad de La Frontera" := "UFRO",
    "University of B\U{ED}o-B\U{ED}o" := "UBB",
    "Millennium Science Initiative" := "ICM",
    "Universidad de Los Lagos" := "U. Los Lagos",
    "Universidad Cat\U{F3}lica del Norte" := "UCN",
    "Universidad de Tarapac\U{E1}" := "UTA",
    "Universidad Cat\U{F3}lica de Temuco" := "UC Temuco",
    "Universidad Cat\U{F3}lica del Maule" := "UCM",
    "Universidad de Atacama" := "UDA",
    "Universidad de Antofagasta" := "UA",
    "Universidad de Magallanes" := "UMAG",
    "Universidad Arturo Prat" := "UNAP",
    "Universidad de Playa Ancha de Ciencias de la Educaci\U{F3}n" := "UPLA",
    "Universidad Metropolitana de Ciencias de la Educaci\U{F3}n" := "UMCE",
    "Universidad Tecnol\U{F3}gica Metropolitana" := "UTEM",
    "Universidad Central de Chile" := "UCEN",
    "Universidad Academia de Humanismo Cristiano" := "UAHC",
    "Universidad SEK" := "USEK",
    "Universidad Aut\U{F3}noma de Chile" := "UA Chile",
    "Universidad Santo Tom\U{E1}s" := "UST",
    "Universidad Gabriela Mistral" := "UGM",
    "Universidad Bernardo O'Higgins" := "UBO"
  ]

  /** Every short name of the table fits in twenty characters. */
  lemma ShortNamesFit()
    ensures forall k :: k in INSTITUCIONES_CORTAS ==> |INSTITUCIONES_CORTAS[k]| <= 20
  {
  }

  /** `normalizar_institucion`: the short name when there is one, else the first 20 characters. */
  function NormalizarInstitucion(inst: string): (r: string)
    ensures inst in INSTITUCIONES_CORTAS ==> r == INSTITUCIONES_CORTAS[inst]
    ensures inst !in INSTITUCIONES_CORTAS ==> r <= inst && |r| == (if |inst| < 20 then |inst| else 20)
    ensures |r| <= 20
  {
    ShortNamesFit();
    if inst in INSTITUCIONES_CORTAS then INSTITUCIONES_CORTAS[inst] else SliceTo(inst, 20)
  }

  /**
   * The page and the processing step disagree: "Universidad La República" is shortened
   * differently, and an unknown name longer than 20 characters is cut here only.
   */
  lemma InstitutionTablesDiffer(inst: string)
    requires |inst| > 20 && inst !in INSTITUCIONES_CORTAS && inst !in ProcesarRanking.INSTITUCIONES_CORTAS
    ensures NormalizarInstitucion("Universidad La Rep\U{FA}blica") == "ULAR"
    ensures ProcesarRanking.NormalizarInstitucion("Universidad La Rep\U{FA}blica") == "U. La Rep\U{FA}blica"
    ensures NormalizarInstitucion(inst) != ProcesarRanking.NormalizarInstitucion(inst)
  {
  }

  // ---------------------------------------------------------------- limpiar_topics

  /** One topic of `limpiar_topics`: stripped, common words dropped, cut to 35 characters. */
  function TopicoLimpio(t: string): (r: string)
    ensures |r| <= 35
  {
    var u := ReplaceAll(ReplaceAll(Strip(t), " and ", ", "), " in ", " ");
    if |u| > 35 then u[..32] + "..." else u
  }

  /** A stripped topic of at most 35 characters holding neither " and " nor " in " is shown as it is. */
  lemma TopicoLimpioKeepsPlainTopic(t: string)
    requires Strip(t) == t && |t| <= 35 && !IsSubstring(" and ", t) && !IsSubstring(" in ", t)
    ensures TopicoLimpio(t) == t
  {
    ReplaceAbsent(t, " and ", ", ");
    ReplaceAbsent(t, " in ", " ");
  }

  /** The cleaned segments: the first three of the `;`-separated topics. */
  function Segmentos(s: string): (segs: seq<string>)
    ensures 1 <= |segs| <= 3
    ensures forall k :: 0 <= k < |segs| ==> |segs[k]| <= 35
    ensures |segs| == |SliceTo(Split(s, ';'), 3)|
    ensures forall k :: 0 <= k < |segs| ==> segs[k] == TopicoLimpio(Split(s, ';')[k])
  {
    var partes := SliceTo(Split(s, ';'), 3);
    seq(|partes|, k requires 0 <= k < |partes| => TopicoLimpio(partes[k]))
  }

  /**
   * `limpiar_topics`: "" for a missing or empty value; otherwise at most three cleaned
   * segments joined by "; ", so never more than 109 characters.
   */
  function LimpiarTopics(topics: Option<string>): (r: string)
    ensures topics.None? || topics.value == "" ==> r == ""
    ensures topics.Some? && topics.value != "" ==> r == Join(Segmentos(topics.value), "; ")
    ensures |r| <= 3 * 35 + 2 * 2
  {
    if topics.None? || topics.value == "" then ""
    else
      var segs := Segmentos(topics.value);
      JoinLength(segs, "; ", 35);
      Join(segs, "; ")
  }

  /**
   * The two copies of the topic shortening disagree: a topic of 36 to 40 characters (after
   * the word replacements) is kept whole by the processing step and cut here.
   */
  lemma TopicLimitsDiffer(t: string)
    requires var u := ReplaceAll(ReplaceAll(Strip(t), " and ", ", "), " in ", " "); 35 < |u| <= 40
    ensures ProcesarRanking.TopicoCorto(t) != TopicoLimpio(t)
    ensures |ProcesarRanking.TopicoCorto(t)| > 35
  {
  }

  // ---------------------------------------------------------------- the string encoding of the page

  const HEX_DIGITS: string := "0123456789abcdef"

  function HexDigit(n: int): char
    requires 0 <= n < 16
  {
    HEX_DIGITS[n]
  }

  /** The value of a hexadecimal digit, either case. */
  function HexValue(c: char): (r: Option<int>)
    ensures r.Some? ==> 0 <= r.value < 16
  {
    if '0' <= c <= '9' then Some(c as int - '0' as int)
    else if 'a' <= c <= 'f' then Some(c as int - 'a' as int + 10)
    else if 'A' <= c <= 'F' then Some(c as int - 'A' as int + 10)
    else None
  }

  lemma HexDigitValue(n: int)
    requires 0 <= n < 16
    ensures HexValue(HexDigit(n)) == Some(n)
  {
    assert HEX_DIGITS == ['0', '1', '2', '3', '4', '5', '6', '7', '8', '9', 'a', 'b', 'c', 'd', 'e', 'f'];
  }

  /** The four hexadecimal digits of a `\u` escape, as a number. */
  function Hex4(s: string): (r: Option<int>)
    requires |s| == 4
    ensures r.Some? ==> 0 <= r.value < 0x10000
  {
    var a, b, c, d := HexValue(s[0]), HexValue(s[1]), HexValue(s[2]), HexValue(s[3]);
    if a.None? || b.None? || c.None? || d.None? then None
    else Some(((a.value * 16 + b.value) * 16 + c.value) * 16 + d.value)
  }

  /**
   * How `json.dumps(..., ensure_ascii=False)` writes one character inside a string: the
   * quote, the backslash and the control characters are escaped, every other character
   * is written as it is.
   */
  function JsonChar(c: char): (r: string)
    ensures |r| >= 1
    ensures c != '"' && c != '\\' && c as int >= 0x20 ==> r == [c]
  {
    if c == '"' then "\\\""
    else if c == '\\' then "\\\\"
    else if c == '\n' then "\\n"
    else if c == '\r' then "\\r"
    else if c == '\t' then "\\t"
    else if c == '\U{8}' then "\\b"
    else if c == '\U{C}' then "\\f"
    else if c as int < 0x20 then "\\u00" + [HexDigit(c as int / 16), HexDigit(c as int % 16)]
    else [c]
  }

  /** The body of the JSON string literal of `s`, without the surrounding quotes. */
  function JsonString(s: string): string
  {
    if |s| == 0 then "" else JsonChar(s[0]) + JsonString(s[1..])
  }

  /** The character a one-letter escape of a JavaScript string literal stands for. */
  function SingleEscape(e: char): Option<char>
  {
    if e == '"' || e == '\'' || e == '\\' || e == '/' then Some(e)
    else if e == 'n' then Some('\n')
    else if e == 'r' then Some('\r')
    else if e == 't' then Some('\t')
    else if e == 'b' then Some('\U{8}')
    else if e == 'f' then Some('\U{C}')
    else None
  }

  /**
   * The value of a double-quoted JavaScript string literal's body, as the browser reads the
   * embedded array: escapes are resolved, an unescaped quote or a dangling backslash makes
   * it unreadable. Only the escapes above and `\uXXXX` outside the surrogate range are read.
   */
  function JsDecode(t: string): Option<string>
    decreases |t|
  {
    if |t| == 0 then Some("")
    else if t[0] == '"' then None
    else if t[0] != '\\' then Prepend(t[0], JsDecode(t[1..]))
    else if |t| < 2 then None
    else if t[1] == 'u' then
      if |t| < 6 then None
      else
        var v := Hex4(t[2..6]);
        if v.None? || (0xD800 <= v.value < 0xE000) then None
        else Prepend(v.value as char, JsDecode(t[6..]))
    else
      match SingleEscape(t[1])
      case None => None
      case Some(c) => Prepend(c, JsDecode(t[2..]))
  }

  function Prepend(c: char, rest: Option<string>): Option<string>
  {
    if rest.None? then None else Some([c] + rest.value)
  }

  /** One encoded character followed by anything decodes to that character followed by the rest's value. */
  lemma DecodeJsonChar(c: char, rest: string)
    ensures JsDecode(JsonChar(c) + rest) == Prepend(c, JsDecode(rest))
  {
    var t := JsonChar(c) + rest;
    if c as int < 0x20 && c != '\n' && c != '\r' && c != '\t' && c != '\U{8}' && c != '\U{C}' {
      var n := c as int;
      HexDigitValue(n / 16);
      HexDigitValue(n % 16);
      assert t[2..6] == ['0', '0', HexDigit(n / 16), HexDigit(n % 16)];
      assert Hex4(t[2..6]) == Some(n);
      assert t[6..] == rest;
    } else if c == '"' || c == '\\' || c == '\n' || c == '\r' || c == '\t' || c == '\U{8}' || c == '\U{C}' {
      assert t[2..] == rest;
    } else {
      assert t[1..] == rest;
    }
  }

  /** What `json.dumps` writes, the browser reads back unchanged: for every string. */
  lemma {:induction false} JsonRoundTrip(s: string)
    ensures JsDecode(JsonString(s)) == Some(s)
  {
    if |s| > 0 {
      JsonRoundTrip(s[1..]);
      DecodeJsonChar(s[0], JsonString(s[1..]));
      assert [s[0]] + s[1..] == s;
    }
  }

  // ---------------------------------------------------------------- the name column

  /**
   * The name as `generar_js_array` writes it: `"` becomes `\"`, `'` becomes `\'`, and the
   * two dash characters become '-'. The result then goes through `json.dumps`.
   */
  function EscaparNombre(nombre: string): (r: string)
    ensures |r| >= |nombre|
    ensures ('"' in nombre || '\'' in nombre) ==> |r| > |nombre|
    ensures ProcesarRanking.HYPHEN !in r && ProcesarRanking.EN_DASH !in r
  {
    var s1 := ReplaceAll(nombre, "\"", "\\\"");
    ReplaceAllChar(nombre, '"', "\\\"");
    ReplaceCharLength(nombre, '"', "\\\"");
    var s2 := ReplaceAll(s1, "'", "\\'");
    ReplaceAllChar(s1, '\'', "\\'");
    ReplaceCharLength(s1, '\'', "\\'");
    ReplaceCharKeeps(nombre, '"', "\\\"", '\'');
    ProcesarRanking.NormalizarGuiones(s2)
  }

  /** Replacing a character by two never shortens, and lengthens when the character occurs. */
  lemma {:induction false} ReplaceCharLength(s: string, c: char, rep: string)
    requires |rep| == 2
    ensures |ReplaceChar(s, c, rep)| >= |s|
    ensures c in s ==> |ReplaceChar(s, c, rep)| > |s|
  {
    if |s| > 0 {
      ReplaceCharLength(s[1..], c, rep);
      assert c in s ==> s[0] == c || c in s[1..];
    }
  }

  /**
   * What the page shows for a name as written: the backslashes added by hand survive the
   * JSON encoding, so a name with a quote is shown with an extra backslash, never as it is
   * (with its dashes normalised).
   */
  lemma EscapedNameShownWithBackslash(nombre: string)
    requires '"' in nombre || '\'' in nombre
    ensures JsDecode(JsonString(EscaparNombre(nombre))) == Some(EscaparNombre(nombre))
    ensures JsDecode(JsonString(EscaparNombre(nombre))) != Some(ProcesarRanking.NormalizarGuiones(nombre))
  {
    JsonRoundTrip(EscaparNombre(nombre));
  }

  /** "O'Higgins" is shown as `O\'Higgins`. */
  lemma OHigginsShownWithBackslash()
    ensures JsDecode(JsonString(EscaparNombre("O'Higgins"))) == Some("O\\'Higgins")
  {
    var a, b := "O", "Higgins";
    assert '"' !in a + "'" + b;
    assert '\'' !in a && '\'' !in b;
    assert ProcesarRanking.HYPHEN !in a + b && ProcesarRanking.EN_DASH !in a + b;
    EscaparNombreSingleQuote(a, b);
    assert a + "'" + b == "O'Higgins";
    assert a + "\\'" + b == "O\\'Higgins";
    JsonRoundTrip(a + "\\'" + b);
  }

  /** A name with one apostrophe, no double quote and no dash gets exactly one backslash, before the apostrophe. */
  lemma EscaparNombreSingleQuote(a: string, b: string)
    requires '"' !in a + "'" + b && '\'' !in a && '\'' !in b
    requires ProcesarRanking.HYPHEN !in a + b && ProcesarRanking.EN_DASH !in a + b
    ensures EscaparNombre(a + "'" + b) == a + "\\'" + b
  {
    var n := a + "'" + b;
    var e := a + "\\'" + b;
    assert ReplaceAll(n, "\"", "\\\"") == n by {
      ReplaceAllChar(n, '"', "\\\"");
      ReplaceCharAbsent(n, '"', "\\\"");
    }
    assert ReplaceAll(n, "'", "\\'") == e by {
      ReplaceAllChar(n, '\'', "\\'");
      ReplaceCharAppend(a + "'", b, '\'', "\\'");
      ReplaceCharAppend(a, "'", '\'', "\\'");
      ReplaceCharAbsent(a, '\'', "\\'");
      ReplaceCharAbsent(b, '\'', "\\'");
      assert ReplaceChar("'", '\'', "\\'") == "\\'";
    }
    assert ProcesarRanking.HYPHEN !in e && ProcesarRanking.EN_DASH !in e by {
      assert forall i :: 0 <= i < |e| ==> e[i] in a + b || e[i] == '\\' || e[i] == '\'';
    }
    ProcesarRanking.NormalizarGuionesSinGuiones(e);
  }

  lemma {:induction false} ReplaceCharAppend(x: string, y: string, c: char, rep: string)
    ensures ReplaceChar(x + y, c, rep) == ReplaceChar(x, c, rep) + ReplaceChar(y, c, rep)
  {
    if |x| > 0 {
      ReplaceCharAppend(x[1..], y, c, rep);
      assert (x + y)[1..] == x[1..] + y;
    } else {
      assert x + y == y;
    }
  }

  lemma {:induction false} ReplaceCharAbsent(s: string, c: char, rep: string)
    requires c !in s
    ensures ReplaceChar(s, c, rep) == s
  {
    if |s| > 0 {
      ReplaceCharAbsent(s[1..], c, rep);
      assert [s[0]] + s[1..] == s;
    }
  }

  /** The name as the page needs it: only the dashes normalised, quoting left to `json.dumps`. */
  function NombreJs(nombre: string): (r: string)
    ensures |r| == |nombre|
    ensures ProcesarRanking.HYPHEN !in r && ProcesarRanking.EN_DASH !in r
  {
    ProcesarRanking.NormalizarGuiones(nombre)
  }

  /** With the corrected mapping the page shows every name exactly, dashes normalised. */
  lemma NombreJsShownAsIs(nombre: string)
    ensures JsDecode(JsonString(NombreJs(nombre))) == Some(ProcesarRanking.NormalizarGuiones(nombre))
  {
    JsonRoundTrip(NombreJs(nombre));
  }

  // ---------------------------------------------------------------- generar_js_array

  /** A row of the final CSV; `None` is a missing column or `NaN`. */
  datatype Fila = Fila(
    scholarId: Option<string>,
    orcid: Option<string>,
    nombre: string,
    institucion: string,
    disciplina: string,
    topics: Option<string>,
    hIndex: int,
    citas: int)

  /** One entry of the JavaScript array. */
  datatype Investigador = Investigador(
    id: string,
    name: string,
    affiliation: string,
    d1: string,
    orcid: string,
    topics: string,
    hindex: int,
    citations: int)

  function AInvestigador(f: Fila): Investigador
  {
    Investigador(
      f.scholarId.GetOr(""),
      EscaparNombre(f.nombre),
      NormalizarInstitucion(f.institucion),
      ProcesarRanking.AbreviarDisciplina(f.disciplina),
      f.orcid.GetOr(""),
      LimpiarTopics(f.topics),
      f.hIndex,
      f.citas)
  }

  /**
   * `generar_js_array`: one entry per row, in order, keeping the two metrics; a missing id
   * or ORCID is "", the affiliation fits in 20 characters, the discipline in 5, the topics
   * in 109; the name, escaped by hand, is never shorter than the row's name, is longer when
   * it holds a quote or apostrophe, and has neither special dash.
   */
  function GenerarJsArray(filas: seq<Fila>): (r: seq<Investigador>)
    ensures |r| == |filas|
    ensures forall i :: 0 <= i < |r| ==>
              r[i].hindex == filas[i].hIndex && r[i].citations == filas[i].citas
              && (filas[i].scholarId.None? ==> r[i].id == "") && (filas[i].orcid.None? ==> r[i].orcid == "")
              && |r[i].affiliation| <= 20 && |r[i].d1| <= 5 && |r[i].topics| <= 109
              && |r[i].name| >= |filas[i].nombre|
              && ('"' in filas[i].nombre || '\'' in filas[i].nombre ==> |r[i].name| > |filas[i].nombre|)
              && ProcesarRanking.HYPHEN !in r[i].name && ProcesarRanking.EN_DASH !in r[i].name
  {
    var r := seq(|filas|, i requires 0 <= i < |filas| => AInvestigador(filas[i]));
    forall i | 0 <= i < |r| ensures |r[i].d1| <= 5 {
      AbreviaturaCorta(filas[i].disciplina);
    }
    r
  }

  /**
   * What the page shows for each name of the array: the hand-escaped text, which differs
   * from the name (dashes normalised) whenever the name holds a quote or apostrophe.
   */
  lemma GenerarJsArrayNames(filas: seq<Fila>, i: nat)
    requires i < |filas|
    ensures JsDecode(JsonString(GenerarJsArray(filas)[i].name)) == Some(EscaparNombre(filas[i].nombre))
    ensures '"' in filas[i].nombre || '\'' in filas[i].nombre ==>
              JsDecode(JsonString(GenerarJsArray(filas)[i].name)) != Some(ProcesarRanking.NormalizarGuiones(filas[i].nombre))
  {
    var nombre := filas[i].nombre;
    assert GenerarJsArray(filas)[i].name == EscaparNombre(nombre);
    JsonRoundTrip(EscaparNombre(nombre));
  }

  /**
   * The array as intended: the same entries as `GenerarJsArray` except the name, which is
   * only dash-normalised and keeps its length.
   */
  function GenerarJsArrayCorregido(filas: seq<Fila>): (r: seq<Investigador>)
    ensures |r| == |filas|
    ensures forall i :: 0 <= i < |r| ==> r[i] == GenerarJsArray(filas)[i].(name := r[i].name)
    ensures forall i :: 0 <= i < |r| ==>
              |r[i].name| == |filas[i].nombre| && ProcesarRanking.HYPHEN !in r[i].name && ProcesarRanking.EN_DASH !in r[i].name
  {
    var original := GenerarJsArray(filas);
    seq(|filas|, i requires 0 <= i < |filas| => original[i].(name := NombreJs(filas[i].nombre)))
  }

  /** With the intended array the page shows every name as written, dashes normalised. */
  lemma GenerarJsArrayCorregidoNames(filas: seq<Fila>, i: nat)
    requires i < |filas|
    ensures JsDecode(JsonString(GenerarJsArrayCorregido(filas)[i].name)) == Some(ProcesarRanking.NormalizarGuiones(filas[i].nombre))
  {
    assert GenerarJsArrayCorregido(filas)[i].name == NombreJs(filas[i].nombre);
    NombreJsShownAsIs(filas[i].nombre);
  }

  /** Every abbreviation, known or cut, has at most five characters. */
  lemma AbreviaturaCorta(d: string)
    ensures |ProcesarRanking.AbreviarDisciplina(d)| <= 5
  {
    assert forall k :: k in ProcesarRanking.ABREVIATURAS ==> |ProcesarRanking.ABREVIATURAS[k]| <= 5;
  }

  // ---------------------------------------------------------------- summary figures

  function HIndices(xs: seq<Investigador>): (r: seq<int>)
    ensures |r| == |xs| && forall i :: 0 <= i < |xs| ==> r[i] == xs[i].hindex
  {
    seq(|xs|, i requires 0 <= i < |xs| => xs[i].hindex)
  }

  function Citations(xs: seq<Investigador>): (r: seq<int>)
    ensures |r| == |xs| && forall i :: 0 <= i < |xs| ==> r[i] == xs[i].citations
  {
    seq(|xs|, i requires 0 <= i < |xs| => xs[i].citations)
  }

  function Affiliation(x: Investigador): string { x.affiliation }

  /** The figures above the table. */
  datatype Resumen = Resumen(total: int, avgH: real, totalCitas: int, instituciones: int)

  /**
   * The summary at the top of `generar_html`: the count, the mean h-index (0 for an empty
   * list), the citation total and the number of distinct affiliations, which is at least one
   * for a non-empty list and never more than the count.
   */
  function Resumir(xs: seq<Investigador>): (r: Resumen)
    ensures r.total == |xs|
    ensures |xs| == 0 ==> r.avgH == 0.0 && r.totalCitas == 0 && r.instituciones == 0
    ensures |xs| > 0 ==> r.avgH * (|xs| as real) == Sum(HIndices(xs)) as real
    ensures r.totalCitas == Sum(Citations(xs))
    ensures r.instituciones == |KeysOf(xs, Affiliation)|
    ensures |xs| > 0 ==> 1 <= r.instituciones <= |xs|
  {
    var total := |xs|;
    var avg := if total > 0 then (Sum(HIndices(xs)) as real) / (total as real) else 0.0;
    ImageCard(xs, Affiliation);
    assert total > 0 ==> |KeysOf(xs, Affiliation)| >= 1 by {
      if total > 0 {
        ImageNonEmpty(xs, Affiliation);
      }
    }
    Resumen(total, avg, Sum(Citations(xs)), |KeysOf(xs, Affiliation)|)
  }

  /** The mean h-index lies between the smallest and the largest h-index of the list. */
  lemma AverageBetween(xs: seq<Investigador>, lo: int, hi: int)
    requires |xs| > 0
    requires forall i :: 0 <= i < |xs| ==> lo <= xs[i].hindex <= hi
    ensures lo as real <= Resumir(xs).avgH <= hi as real
  {
    SumBounds(HIndices(xs), lo, hi);
    MeanBounds(Sum(HIndices(xs)), |xs|, lo, hi);
  }

  lemma MeanBounds(total: int, n: int, lo: int, hi: int)
    requires n > 0 && n * lo <= total <= n * hi
    ensures lo as real <= (total as real) / (n as real) <= hi as real
  {
    var m := (total as real) / (n as real);
    assert m * (n as real) == total as real;
    assert (n * lo) as real == (n as real) * (lo as real);
    assert (n * hi) as real == (n as real) * (hi as real);
    assert (m - lo as real) * (n as real) >= 0.0;
    assert (hi as real - m) * (n as real) >= 0.0;
  }

  lemma {:induction false} SumBounds(s: seq<int>, lo: int, hi: int)
    requires forall i :: 0 <= i < |s| ==> lo <= s[i] <= hi
    ensures |s| * lo <= Sum(s) <= |s| * hi
  {
    if |s| > 0 {
      SumBounds(s[1..], lo, hi);
    }
  }
}
