/** `interpretar_exame`: looks an analyte up in the glossary, picks the
    reference table for the patient's sex, scans its age brackets in stored
    order, parses the chosen range and classifies the value against it. */
module Interpreter {
  import opened Text
  import opened Interval

  /** The age brackets of one sex, in the order the glossary stores them:
      (bracket label, reference range text). The glossary is a JSON object, so its
      labels are distinct. */
  type Table = seq<(string, string)>

  /** One glossary entry: each of the three keys the code reads may be
      absent; `otherKeys` records whether the entry holds any other key. */
  datatype Entry = Entry(
    descricao: Option<string>,
    interpretacao: Option<string>,
    referencias: Option<map<string, Table>>,
    otherKeys: bool)

  /** The glossary, keyed by the lower-cased, trimmed analyte name. */
  type Glossary = map<string, Entry>

  datatype Status = Normal | Alto | Baixo | Indeterminado

  /** The status code `interpretar_exame` returns. */
  function StatusCode(s: Status): (code: string)
    ensures s == Indeterminado <==> code == "indeterminado"
  {
    match s
    case Normal => "normal"
    case Alto => "alto"
    case Baixo => "baixo"
    case Indeterminado => "indeterminado"
  }

  /** The message: a plain text, or the verdict on a value, whose rendering
      of the number is not modelled. */
  datatype Message =
    | Plain(text: string)
    | Verdict(valor: real, statusText: string, reference: string, interpretation: string)

  /** What a call does: return a message and a status, or raise (the
      `ValueError` of `int(...)` or of unpacking `split("-")` on a bracket
      label it cannot read). */
  datatype Outcome = Returns(message: Message, status: Status) | Raises

  const NoDescription := "Descrição não disponível."
  const Inside := "dentro do normal"
  const Different := "diferente do valor de referência"
  const Below := "abaixo do normal"
  const Above := "acima do normal"
  const General := "geral"
  const Fallback := "padrão"

  function NotFoundMessage(termo: string): string {
    "O termo '" + termo + "' não foi encontrado em nossa base de dados para análise."
  }

  // ---------------------------------------------------------------------
  // Looking the term up

  /** `termo.lower().strip()`. */
  function NormalizeKey(termo: string): string {
    Strip(Lower(termo))
  }

  /** An entry that is an empty JSON object is falsy, like a missing one. */
  predicate IsEmptyEntry(e: Entry) {
    e.descricao.None? && e.interpretacao.None? && e.referencias.None? && !e.otherKeys
  }

  predicate Found(g: Glossary, termo: string) {
    NormalizeKey(termo) in g && !IsEmptyEntry(g[NormalizeKey(termo)])
  }

  /** `referencias.get(sexo.lower(), referencias.get("geral", {}))`, with a
      missing `referencias` read as `{}`. */
  function SexTable(e: Entry, sexo: string): Table {
    var refs := e.referencias.GetOr(map[]);
    if Lower(sexo) in refs then refs[Lower(sexo)]
    else if General in refs then refs[General]
    else []
  }

  // ---------------------------------------------------------------------
  // Age brackets

  /** What testing one bracket label does: it matches, it does not, or `int(...)`
      (or the two-way unpacking of `split("-")`) raises. */
  datatype Test = Hit | Miss | Fault

  /** The `if "+" in faixa and idade >= int(...)` test. When it fails the
      `elif "-" in faixa` branch is still tried. */
  function PlusTest(faixa: string, age: int): Test {
    if '+' !in faixa then Miss
    else
      var n := RemoveAll(faixa, '+');
      if !IsIntLiteral(n) then Fault
      else if age >= IntValue(n) then Hit
      else Miss
  }

  /** The `elif "-" in faixa` test: exactly two parts, and the chained
      comparison `int(ini) <= idade <= int(fim)`, which reads `fim` only
      when the first comparison holds. */
  function DashTest(faixa: string, age: int): Test {
    if '-' !in faixa then Miss
    else if Count(faixa, '-') != 1 then Fault
    else
      var k := IndexOf(faixa, '-');
      var ini, fim := faixa[..k], faixa[k + 1..];
      if !IsIntLiteral(ini) then Fault
      else if IntValue(ini) > age then Miss
      else if !IsIntLiteral(fim) then Fault
      else if age <= IntValue(fim) then Hit
      else Miss
  }

  /** One iteration of the bracket loop. A label without `+` and `-`, such
      as "padrão", is skipped. */
  function LabelTest(faixa: string, age: int): (r: Test)
    ensures '+' !in faixa && '-' !in faixa ==> r == Miss
    ensures r == Hit ==> PlusTest(faixa, age) == Hit || DashTest(faixa, age) == Hit
  {
    var p := PlusTest(faixa, age);
    if p != Miss then p else DashTest(faixa, age)
  }

  /** Every label from index `i` up to `k` misses. */
  predicate AllMiss(t: Table, age: int, i: nat, k: nat)
    requires i <= k <= |t|
  {
    forall j :: i <= j < k ==> LabelTest(t[j].0, age) == Miss
  }

  /** Where the bracket scan from index `i` on stops. */
  datatype Scan = Matched(index: nat) | NoMatch | Raised

  /** The first label from `i` on that is not a miss decides: a hit is
      taken, a fault raises; when every label misses nothing is taken. */
  function ScanFrom(t: Table, age: int, i: nat): (r: Scan)
    requires i <= |t|
    ensures r.Matched? ==> i <= r.index < |t| && LabelTest(t[r.index].0, age) == Hit
    ensures r.Matched? ==> AllMiss(t, age, i, r.index)
    ensures r.NoMatch? <==> AllMiss(t, age, i, |t|)
    ensures r.Raised? ==> exists k :: i <= k < |t| && LabelTest(t[k].0, age) == Fault && AllMiss(t, age, i, k)
    decreases |t| - i
  {
    if i == |t| then NoMatch
    else match LabelTest(t[i].0, age)
      case Hit => Matched(i)
      case Fault => Raised
      case Miss => ScanFrom(t, age, i + 1)
  }

  /** `ref_sexo[key]`: the value stored under `key`, if any. */
  function Lookup(t: Table, key: string): (r: Option<string>)
    ensures r.Some? ==> exists i :: 0 <= i < |t| && t[i] == (key, r.value)
    ensures r.None? ==> forall i :: 0 <= i < |t| ==> t[i].0 != key
  {
    if t == [] then None
    else if t[0].0 == key then Some(t[0].1)
    else Lookup(t[1..], key)
  }

  /** The range the code settles on for an age: a range text, none, or an
      exception from a label it cannot read. */
  datatype Choice = Chosen(range: string) | NoRange | Crash

  /** The `padrão` fallback, taken when the scan chose nothing usable (an
      empty range text is as falsy as no range at all). */
  function FallbackRange(t: Table): (c: Choice)
    ensures c != Crash
    ensures c.Chosen? ==> Lookup(t, Fallback) == Some(c.range) && c.range != ""
  {
    var p := Lookup(t, Fallback);
    if p.Some? && p.value != "" then Chosen(p.value) else NoRange
  }

  /** The range the bracket scan settles on: the first matching bracket,
      else `padrão`. */
  function Resolve(t: Table, age: int): (c: Choice)
    ensures c == Crash <==> ScanFrom(t, age, 0) == Raised
    ensures c.Chosen? ==> c.range != ""
  {
    match ScanFrom(t, age, 0)
    case Raised => Crash
    case Matched(k) => if t[k].1 != "" then Chosen(t[k].1) else FallbackRange(t)
    case NoMatch => FallbackRange(t)
  }

  /** The bracket loop as the source writes it: a `for` over the table that
      stops at the first hit, then the `padrão` fallback. */
  method ChooseRange(t: Table, age: int) returns (c: Choice)
    ensures c == Resolve(t, age)
  {
    var chosen: Option<string> := None;
    var i := 0;
    while i < |t|
      invariant 0 <= i <= |t|
      invariant chosen.None?
      invariant ScanFrom(t, age, 0) == ScanFrom(t, age, i)
      decreases |t| - i
    {
      var test := LabelTest(t[i].0, age);
      if test == Fault {
        return Crash;
      }
      if test == Hit {
        chosen := Some(t[i].1);
        break;
      }
      i := i + 1;
    }
    if chosen.None? || chosen.value == "" {
      var p := Lookup(t, Fallback);
      if p.Some? {
        chosen := p;
      }
    }
    if chosen.None? || chosen.value == "" {
      return NoRange;
    }
    return Chosen(chosen.value);
  }

  // ---------------------------------------------------------------------
  // Classification

  /** The `if`/`elif` chain: the status phrase and the status of `valor` against the
      parsed bounds. */
  function Classify(valor: real, b: Bounds): (r: (string, Status))
    ensures r.1 != Indeterminado
    ensures r.1 == Normal <==> r.0 == Inside
    ensures r.1 == Baixo <==> r.0 == Below
    ensures r.1 == Alto <==> r.0 == Different || r.0 == Above
  {
    if b.lo.Some? && b.hi.Some? && b.lo.value == b.hi.value then
      if valor != b.lo.value then (Different, Alto) else (Inside, Normal)
    else if b.lo.Some? && valor < b.lo.value then (Below, Baixo)
    else if b.hi.Some? && valor > b.hi.value then (Above, Alto)
    else (Inside, Normal)
  }

  // ---------------------------------------------------------------------
  // The whole operation

  /** What `interpretar_exame(termo, valor, idade, sexo)` returns, with the
      range parsed as the code parses it. */
  function Interpretation(g: Glossary, termo: string, valor: Option<real>, idade: int, sexo: string): Outcome {
    var key := NormalizeKey(termo);
    if key !in g || IsEmptyEntry(g[key]) then
      Returns(Plain(NotFoundMessage(termo)), Indeterminado)
    else
      var e := g[key];
      if valor.None? then Returns(Plain(e.descricao.GetOr(NoDescription)), Normal)
      else
        var desc := e.descricao.GetOr(NoDescription);
        var interp := e.interpretacao.GetOr("");
        match Resolve(SexTable(e, sexo), idade)
        case Crash => Raises
        case NoRange => Returns(Plain(desc + " " + interp), Normal)
        case Chosen(faixa) =>
          var r := Classify(valor.value, ParseIntervalAsWritten(faixa));
          Returns(Verdict(valor.value, r.0, faixa, interp), r.1)
  }

  /** `interpretar_exame`, step by step: lookup, early returns, the bracket
      loop, then the `if`/`elif` chain that overwrites the status. */
  method InterpretExam(g: Glossary, termo: string, valor: Option<real>, idade: int, sexo: string)
    returns (r: Outcome)
    ensures r == Interpretation(g, termo, valor, idade, sexo)
  {
    var key := NormalizeKey(termo);
    if key !in g || IsEmptyEntry(g[key]) {
      return Returns(Plain(NotFoundMessage(termo)), Indeterminado);
    }
    var e := g[key];
    if valor.None? {
      return Returns(Plain(e.descricao.GetOr(NoDescription)), Normal);
    }
    var desc := e.descricao.GetOr(NoDescription);
    var interp := e.interpretacao.GetOr("");
    var table := SexTable(e, sexo);
    var choice := ChooseRange(table, idade);
    if choice == Crash {
      return Raises;
    }
    if choice == NoRange {
      return Returns(Plain(desc + " " + interp), Normal);
    }
    var b := ParseIntervalAsWritten(choice.range);
    var statusText, status := ClassifyValue(valor.value, b);
    return Returns(Verdict(valor.value, statusText, choice.range, interp), status);
  }

  /** The classification as the code runs it: the status starts as normal and the `if`/`elif` chain
      overwrites it. */
  method ClassifyValue(v: real, b: Bounds) returns (statusText: string, status: Status)
    ensures (statusText, status) == Classify(v, b)
  {
    statusText := Inside;
    status := Normal;
    if b.lo.Some? && b.hi.Some? && b.lo.value == b.hi.value {
      if v != b.lo.value {
        statusText := Different;
        status := Alto;
      }
    } else if b.lo.Some? && v < b.lo.value {
      statusText := Below;
      status := Baixo;
    } else if b.hi.Some? && v > b.hi.value {
      statusText := Above;
      status := Alto;
    }
  }

  // ---------------------------------------------------------------------
  // Lemmas: looking the term up

  /** Lower-casing works character by character, so it distributes over
      concatenation. */
  lemma {:induction false} LowerConcat(x: string, y: string)
    ensures Lower(x + y) == Lower(x) + Lower(y)
  {
    if x == [] {
      assert x + y == y;
    } else {
      assert (x + y)[0] == x[0] && (x + y)[1..] == x[1..] + y;
      LowerConcat(x[1..], y);
    }
  }

  /** A string with no upper-case letter is its own lower-case form. */
  lemma LowerOfLowered(x: string)
    requires NoUpper(x)
    ensures Lower(x) == x
  {
    var l := Lower(x);
    forall i | 0 <= i < |x| ensures l[i] == x[i] {
      assert l[i] == LowerChar(x[i]);
    }
  }

  /** The glossary key ignores case and the whitespace around the term. */
  lemma KeyIgnoresCaseAndPadding(p: string, termo: string, q: string)
    requires AllSpace(p) && AllSpace(q)
    ensures NormalizeKey(p + termo + q) == NormalizeKey(termo)
    ensures NormalizeKey(Lower(termo)) == NormalizeKey(termo)
  {
    LowerConcat(p + termo, q);
    LowerConcat(p, termo);
    LowerPreservesSpace(p);
    LowerPreservesSpace(q);
    StripPadded(Lower(p), Lower(termo), Lower(q));
    LowerIdempotent(termo);
  }

  predicate NoUpper(x: string) {
    forall i :: 0 <= i < |x| ==> !IsUpper(x[i])
  }

  lemma StripKeepsNoUpper(x: string)
    requires NoUpper(x)
    ensures NoUpper(Strip(x))
  {
    var k := Strip(x);
    var a := |x| - |StripLeft(x)|;
    StripShape(x);
    forall i | 0 <= i < |k| ensures !IsUpper(k[i]) {
      assert k[i] == x[a + i];
    }
  }

  /** Normalising a key again changes nothing. */
  lemma KeyIdempotent(termo: string)
    ensures NormalizeKey(NormalizeKey(termo)) == NormalizeKey(termo)
  {
    var l := Lower(termo);
    assert NoUpper(l);
    StripKeepsNoUpper(l);
    LowerOfLowered(Strip(l));
    StripIdempotent(l);
  }

  /** A found term is interpreted the same way however it is cased or
      padded with whitespace. */
  lemma InterpretationIgnoresCaseAndPadding(g: Glossary, p: string, termo: string, q: string,
                                            valor: Option<real>, idade: int, sexo: string)
    requires AllSpace(p) && AllSpace(q) && Found(g, termo)
    ensures Interpretation(g, p + termo + q, valor, idade, sexo) == Interpretation(g, termo, valor, idade, sexo)
    ensures Interpretation(g, Lower(termo), valor, idade, sexo) == Interpretation(g, termo, valor, idade, sexo)
  {
    KeyIgnoresCaseAndPadding(p, termo, q);
  }

  // ---------------------------------------------------------------------
  // Lemmas: the outcome

  /** The status is `indeterminado` exactly when the term is not found, and
      then the message says so, naming the term as given. */
  lemma IndeterminateIffNotFound(g: Glossary, termo: string, valor: Option<real>, idade: int, sexo: string)
    ensures var r := Interpretation(g, termo, valor, idade, sexo);
      (r.Returns? && r.status == Indeterminado) <==> !Found(g, termo)
    ensures !Found(g, termo) ==>
      Interpretation(g, termo, valor, idade, sexo) == Returns(Plain(NotFoundMessage(termo)), Indeterminado)
  {
    if Found(g, termo) && valor.Some? {
      var e := g[NormalizeKey(termo)];
      match Resolve(SexTable(e, sexo), idade)
      case Chosen(faixa) =>
        var c := Classify(valor.value, ParseIntervalAsWritten(faixa));
        assert c.1 != Indeterminado;
      case NoRange =>
      case Crash =>
    }
  }

  /** A found term without a numeric value gets its description (or the
      stock text when it has none) and `normal`. */
  lemma NoValueDescription(g: Glossary, termo: string, idade: int, sexo: string)
    requires Found(g, termo)
    ensures Interpretation(g, termo, None, idade, sexo)
            == Returns(Plain(g[NormalizeKey(termo)].descricao.GetOr(NoDescription)), Normal)
  {
  }

  /** The call raises only for a found term with a value whose bracket scan
      reaches a label `int(...)` cannot read before any label matches. */
  lemma RaisesIff(g: Glossary, termo: string, valor: Option<real>, idade: int, sexo: string)
    ensures Interpretation(g, termo, valor, idade, sexo) == Raises <==>
      Found(g, termo) && valor.Some? && ScanFrom(SexTable(g[NormalizeKey(termo)], sexo), idade, 0) == Raised
  {
    if Found(g, termo) && valor.Some? {
      var e := g[NormalizeKey(termo)];
      match Resolve(SexTable(e, sexo), idade)
      case Chosen(faixa) =>
      case NoRange =>
      case Crash =>
    }
  }

  /** With no usable bracket and no usable `padrão`, the answer is the
      unclassified description and interpretation, with `normal`. */
  lemma NoRangeUnclassified(g: Glossary, termo: string, v: real, idade: int, sexo: string)
    requires Found(g, termo)
    requires Resolve(SexTable(g[NormalizeKey(termo)], sexo), idade) == NoRange
    ensures var e := g[NormalizeKey(termo)];
      Interpretation(g, termo, Some(v), idade, sexo)
      == Returns(Plain(e.descricao.GetOr(NoDescription) + " " + e.interpretacao.GetOr("")), Normal)
  {
  }

  /** The sex is matched in lower case: its case makes no difference. */
  lemma SexCaseIrrelevant(g: Glossary, termo: string, valor: Option<real>, idade: int, sexo: string)
    ensures Interpretation(g, termo, valor, idade, sexo) == Interpretation(g, termo, valor, idade, Lower(sexo))
  {
    LowerIdempotent(sexo);
  }

  /** A sex without a table of its own reads the `geral` table. */
  lemma MissingSexReadsGeneral(g: Glossary, termo: string, valor: Option<real>, idade: int, sexo: string)
    requires Found(g, termo)
    requires Lower(sexo) !in g[NormalizeKey(termo)].referencias.GetOr(map[])
    ensures Interpretation(g, termo, valor, idade, sexo) == Interpretation(g, termo, valor, idade, General)
  {
    LowerOfLowered(General);
    var e := g[NormalizeKey(termo)];
    assert SexTable(e, sexo) == SexTable(e, General);
  }

  /** The decimal comma read as a thousands point, seen from the caller: a
      value of 0.7 against the range "0,700" is reported as `alto`, where
      the corrected parser would report it `normal`. */
  lemma DecimalCommaVerdict(g: Glossary, termo: string, idade: int, sexo: string, r: string)
    requires Found(g, termo) && r == "0,700"
    requires Resolve(SexTable(g[NormalizeKey(termo)], sexo), idade) == Chosen(r)
    ensures Interpretation(g, termo, Some(0.7), idade, sexo).Returns?
    ensures Interpretation(g, termo, Some(0.7), idade, sexo).status == Alto
    ensures Classify(0.7, ParseInterval(r)).1 == Normal
  {
    DecimalCommaStatus(r);
  }

  lemma DecimalCommaStatus(r: string)
    requires r == "0,700"
    ensures Classify(0.7, ParseIntervalAsWritten(r)).1 == Alto
    ensures Classify(0.7, ParseInterval(r)).1 == Normal
  {
    ExampleDecimalComma(r);
  }

  /** A verdict names the value, the resolved reference text and the
      entry's interpretation note, and its phrase and status are the
      classification of the value against that reference. */
  lemma VerdictContents(g: Glossary, termo: string, valor: Option<real>, idade: int, sexo: string)
    requires Interpretation(g, termo, valor, idade, sexo).Returns?
    requires Interpretation(g, termo, valor, idade, sexo).message.Verdict?
    ensures var r := Interpretation(g, termo, valor, idade, sexo);
      var m := r.message;
      var e := g[NormalizeKey(termo)];
      && Found(g, termo) && valor == Some(m.valor)
      && Resolve(SexTable(e, sexo), idade) == Chosen(m.reference)
      && m.interpretation == e.interpretacao.GetOr("")
      && (m.statusText, r.status) == Classify(m.valor, ParseIntervalAsWritten(m.reference))
  {
    var key := NormalizeKey(termo);
    if key !in g || IsEmptyEntry(g[key]) || valor.None? {
    } else {
      match Resolve(SexTable(g[key], sexo), idade)
      case Chosen(faixa) =>
      case NoRange =>
      case Crash =>
    }
  }

  /** The converse: once a range is chosen for a found term and a given
      value, the call returns the verdict on that value against that
      range. */
  lemma ChosenVerdict(g: Glossary, termo: string, v: real, idade: int, sexo: string, r: string)
    requires Found(g, termo)
    requires Resolve(SexTable(g[NormalizeKey(termo)], sexo), idade) == Chosen(r)
    ensures var e := g[NormalizeKey(termo)];
      var c := Classify(v, ParseIntervalAsWritten(r));
      Interpretation(g, termo, Some(v), idade, sexo)
      == Returns(Verdict(v, c.0, r, e.interpretacao.GetOr("")), c.1)
  {
  }

  /** The status code returned is one of the four codes, and it is
      "indeterminado" exactly when the term is not found. */
  lemma StatusCodeReturned(g: Glossary, termo: string, valor: Option<real>, idade: int, sexo: string)
    requires Interpretation(g, termo, valor, idade, sexo).Returns?
    ensures var code := StatusCode(Interpretation(g, termo, valor, idade, sexo).status);
      && (code == "normal" || code == "alto" || code == "baixo" || code == "indeterminado")
      && (code == "indeterminado" <==> !Found(g, termo))
  {
    IndeterminateIffNotFound(g, termo, valor, idade, sexo);
  }

  // ---------------------------------------------------------------------
  // Lemmas: the bracket scan

  /** First match wins: the scan stops at index `k` exactly when the label
      there matches and every earlier label misses. */
  lemma FirstMatch(t: Table, age: int, k: nat)
    ensures ScanFrom(t, age, 0) == Matched(k) <==>
      k < |t| && LabelTest(t[k].0, age) == Hit && AllMiss(t, age, 0, k)
  {
  }

  /** Overlapping brackets are not disambiguated: of two labels that both
      match, the one stored first wins, whichever is narrower. */
  lemma StoredOrderDecides(l1: string, v1: string, l2: string, v2: string, rest: Table, age: int)
    requires LabelTest(l1, age) == Hit && LabelTest(l2, age) == Hit
    requires v1 != "" && v2 != ""
    ensures Resolve([(l1, v1), (l2, v2)] + rest, age) == Chosen(v1)
    ensures Resolve([(l2, v2), (l1, v1)] + rest, age) == Chosen(v2)
  {
    FirstMatch([(l1, v1), (l2, v2)] + rest, age, 0);
    FirstMatch([(l2, v2), (l1, v1)] + rest, age, 0);
  }

  /** A matching bracket with a non-empty range is taken, whatever
      `padrão` says. */
  lemma MatchBeforeFallback(t: Table, age: int, k: nat)
    requires k < |t| && LabelTest(t[k].0, age) == Hit && AllMiss(t, age, 0, k) && t[k].1 != ""
    ensures Resolve(t, age) == Chosen(t[k].1)
  {
    FirstMatch(t, age, k);
  }

  /** When no bracket matches, `padrão` decides: its range if it has a
      non-empty one, otherwise no range at all. */
  lemma FallbackWithoutMatch(t: Table, age: int)
    requires AllMiss(t, age, 0, |t|)
    ensures Lookup(t, Fallback).Some? && Lookup(t, Fallback).value != ""
            ==> Resolve(t, age) == Chosen(Lookup(t, Fallback).value)
    ensures (Lookup(t, Fallback).None? || Lookup(t, Fallback).value == "") ==> Resolve(t, age) == NoRange
  {
  }

  lemma {:induction false} CountConcat(x: string, y: string, c: char)
    ensures Count(x + y, c) == Count(x, c) + Count(y, c)
    decreases |x|
  {
    if x == [] {
      assert x + y == y;
    } else {
      assert (x + y)[1..] == x[1..] + y;
      CountConcat(x[1..], y, c);
    }
  }

  lemma PlusParts(n: string, f: string)
    requires |n| > 0 && AllDigits(n) && f == n + ['+']
    ensures '+' in f && '-' !in f && RemoveAll(f, '+') == n
  {
    DigitsHaveNoSigns(n);
    RemoveAllConcat(n, ['+'], '+');
    RemoveAllAbsent(n, '+');
    assert RemoveAll(['+'], '+') == [];
    assert n + [] == n;
    assert f[|n|] == '+';
  }

  /** A label "N+" matches exactly the ages from N on. */
  lemma PlusLabel(n: string, f: string, age: int)
    requires |n| > 0 && AllDigits(n) && f == n + ['+']
    ensures LabelTest(f, age) == (if age >= DigitsValue(n) then Hit else Miss)
  {
    PlusParts(n, f);
    DigitsLiteral(n);
  }

  lemma SpanCount(a: string, b: string, f: string)
    requires AllDigits(a) && '+' !in b && '-' !in b && f == a + ['-'] + b
    ensures '+' !in f && '-' in f && Count(f, '-') == 1
  {
    DigitsHaveNoSigns(a);
    assert f[|a|] == '-';
    CountConcat(a + ['-'], b, '-');
    CountConcat(a, ['-'], '-');
    assert Count(['-'], '-') == 1;
  }

  lemma SpanIndex(a: string, b: string, f: string)
    requires AllDigits(a) && f == a + ['-'] + b
    ensures '-' in f && IndexOf(f, '-') == |a|
    ensures f[..|a|] == a && f[|a| + 1..] == b
  {
    DigitsHaveNoSigns(a);
    assert f[|a|] == '-';
  }

  /** A label "a-b" matches exactly the ages from a to b, both included. */
  lemma SpanLabel(a: string, b: string, f: string, age: int)
    requires |a| > 0 && AllDigits(a) && |b| > 0 && AllDigits(b) && f == a + ['-'] + b
    ensures LabelTest(f, age) == (if DigitsValue(a) <= age <= DigitsValue(b) then Hit else Miss)
  {
    DigitsHaveNoSigns(b);
    SpanCount(a, b, f);
    SpanIndex(a, b, f);
    DigitsLiteral(a);
    DigitsLiteral(b);
  }

  /** The chained comparison `int(ini) <= idade <= int(fim)` reads `fim`
      only once `ini` is passed: below the start an unreadable end is never
      looked at and the label misses; from the start on it raises. */
  lemma SpanUnreadableEnd(a: string, b: string, f: string, age: int)
    requires |a| > 0 && AllDigits(a) && '+' !in b && '-' !in b && !IsIntLiteral(b)
    requires f == a + ['-'] + b
    ensures LabelTest(f, age) == (if age < DigitsValue(a) then Miss else Fault)
  {
    SpanCount(a, b, f);
    SpanIndex(a, b, f);
    DigitsLiteral(a);
  }

  /** `split("-")` must give exactly two parts: a label with a second `-`
      raises, whatever the age. */
  lemma TwoDashesRaise(a: string, b: string, f: string, age: int)
    requires '+' !in f && f == a + ['-'] + b && '-' in b
    ensures LabelTest(f, age) == Fault
  {
    CountConcat(a + ['-'], b, '-');
    CountConcat(a, ['-'], '-');
    assert Count(['-'], '-') == 1;
    assert f[|a|] == '-';
  }

  // ---------------------------------------------------------------------
  // Lemmas: classification

  /** Against a proper interval lo < hi the value is normal inside it, low
      below it and high above it. */
  lemma ClassifyInterval(v: real, lo: real, hi: real)
    requires lo < hi
    ensures var st := Classify(v, Bounds(Some(lo), Some(hi))).1;
      && (st == Normal <==> lo <= v <= hi)
      && (st == Baixo <==> v < lo)
      && (st == Alto <==> v > hi)
  {
  }

  /** Against a pinpoint reference any other value is `alto`, never `baixo`. */
  lemma ClassifyPinpoint(v: real, m: real)
    ensures var c := Classify(v, Bounds(Some(m), Some(m)));
      && (c.1 == Alto <==> v != m)
      && (c.1 == Normal <==> v == m)
      && (v != m ==> c.0 == Different)
  {
  }

  /** Open bounds compare on one side only; no bounds at all is `normal`. */
  lemma ClassifyOpen(v: real, x: real)
    ensures Classify(v, Bounds(None, Some(x))).1 == (if v > x then Alto else Normal)
    ensures Classify(v, Bounds(Some(x), None)).1 == (if v < x then Baixo else Normal)
    ensures Classify(v, Bounds(None, None)) == (Inside, Normal)
  {
  }

  // ---------------------------------------------------------------------
  // Examples. As in the interval examples, each table or label is a
  // parameter fixed by the precondition, so the solver unfolds the string
  // literals once instead of in every clause.

  /** Brackets {"0-17": "a", "18-64": "b", "65+": "c"}: age 10 takes "a",
      age 70 takes "c", and so does age 200, since "65+" has no upper end. */
  lemma ExampleBrackets(t: Table)
    requires t == [("0-17", "a"), ("18-64", "b"), ("65+", "c")]
    ensures Resolve(t, 10) == Chosen("a")
    ensures Resolve(t, 70) == Chosen("c")
    ensures Resolve(t, 200) == Chosen("c")
  {
    var f0, f1, f2 := t[0].0, t[1].0, t[2].0;
    Label0To17(f0);
    Label18To64(f1);
    Label65Plus(f2);
    FirstMatch(t, 10, 0);
    FirstMatch(t, 70, 2);
    FirstMatch(t, 200, 2);
  }

  lemma Label0To17(f: string)
    requires f == "0-17"
    ensures forall age :: LabelTest(f, age) == (if 0 <= age <= 17 then Hit else Miss)
  {
    assert f == "0" + ['-'] + "17";
    assert DigitsValue("0") == 0;
    assert DigitsValue("17") == 17 by { DigitsValueSnoc("1", '7'); assert "1" + ['7'] == "17"; }
    forall age: int ensures LabelTest(f, age) == (if 0 <= age <= 17 then Hit else Miss) {
      SpanLabel("0", "17", f, age);
    }
  }

  lemma Label18To64(f: string)
    requires f == "18-64"
    ensures forall age :: LabelTest(f, age) == (if 18 <= age <= 64 then Hit else Miss)
  {
    assert f == "18" + ['-'] + "64";
    assert DigitsValue("18") == 18 by { DigitsValueSnoc("1", '8'); assert "1" + ['8'] == "18"; }
    assert DigitsValue("64") == 64 by { DigitsValueSnoc("6", '4'); assert "6" + ['4'] == "64"; }
    forall age: int ensures LabelTest(f, age) == (if 18 <= age <= 64 then Hit else Miss) {
      SpanLabel("18", "64", f, age);
    }
  }

  lemma Label65Plus(f: string)
    requires f == "65+"
    ensures forall age :: LabelTest(f, age) == (if age >= 65 then Hit else Miss)
  {
    assert f == "65" + ['+'];
    assert DigitsValue("65") == 65 by { DigitsValueSnoc("6", '5'); assert "6" + ['5'] == "65"; }
    forall age: int ensures LabelTest(f, age) == (if age >= 65 then Hit else Miss) {
      PlusLabel("65", f, age);
    }
  }

  /** The classifier's table: 5, 25 and 15 against 10 to 20, 14 against the
      pinpoint 13, and any value against no bounds. */
  lemma ExampleClassify(v: real)
    ensures Classify(5.0, Bounds(Some(10.0), Some(20.0))).1 == Baixo
    ensures Classify(25.0, Bounds(Some(10.0), Some(20.0))).1 == Alto
    ensures Classify(15.0, Bounds(Some(10.0), Some(20.0))).1 == Normal
    ensures Classify(14.0, Bounds(Some(13.0), Some(13.0))) == (Different, Alto)
    ensures Classify(v, Bounds(None, None)) == (Inside, Normal)
  {
  }

  /** A term missing from the glossary is `indeterminado`, whatever the
      value, age and sex. */
  lemma ExampleNotFound(termo: string, valor: Option<real>, idade: int, sexo: string)
    ensures Interpretation(map[], termo, valor, idade, sexo)
            == Returns(Plain(NotFoundMessage(termo)), Indeterminado)
  {
  }
}
