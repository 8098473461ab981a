/** The label and default helpers of the dashboard: the friendly title and
    definition of an indicator column, and the indicator and year the
    controls start on. */
module App {
  import opened Wrappers
  import opened Ordering
  import opened Sequences
  import opened Tables
  import opened DataPreparation

  /** Titles of the common indicators. */
  const IndicatorTitles: map<string, string> :=
    map[
      "prev_ativo_lazer_unif" := "Atividade f\U{00ED}sica suficiente no lazer (unificado)",
      "prev_inativo" := "Inatividade f\U{00ED}sica",
      "prev_excpeso" := "Excesso de peso (IMC \U{2265} 25)",
      "prev_obesid" := "Obesidade (IMC \U{2265} 30)",
      "prev_af3dominios" := "Atividade f\U{00ED}sica \U{2265}150 min/sem em 3 dom\U{00ED}nios",
      "prev_af3dominios_insu" := "Atividade f\U{00ED}sica \U{2264}150 min/sem em 3 dom\U{00ED}nios",
      "prev_tv_d_3" := "TV \U{2265} 3 horas/dia",
      "prev_doces5" := "Consumo de doces \U{2265}5x/sem",
      "prev_refritl5" := "Refrigerantes \U{2265}5x/sem",
      "prev_feijao5" := "Feij\U{00E3}o \U{2265}5x/sem",
      "prev_carneg" := "Consumo de carne com gordura",
      "prev_franpl" := "Consumo de frango com pele",
      "prev_gordura" := "Carnes com excesso de gordura",
      "prev_leiteint" := "Leite integral",
      "prev_flvreco" := "Consumo recomendado de frutas e hortali\U{00E7}as"
    ]

  /** Definitions of the common indicators. */
  const IndicatorDefs: map<string, string> :=
    map[
      "prev_ativo_lazer_unif" := "Propor\U{00E7}\U{00E3}o de adultos com pr\U{00E1}tica suficiente de atividade f\U{00ED}sica no lazer (regra unificada Vigitel).",
      "prev_inativo" := "Propor\U{00E7}\U{00E3}o de adultos inativos fisicamente nos dom\U{00ED}nios avaliados.",
      "prev_excpeso" := "Propor\U{00E7}\U{00E3}o com IMC entre 25 e 29,9 ou \U{2265}30 (IMC \U{2265}25).",
      "prev_obesid" := "Propor\U{00E7}\U{00E3}o com IMC \U{2265}30.",
      "prev_af3dominios" := "Propor\U{00E7}\U{00E3}o com soma de minutos semanais \U{2265}150 considerando lazer, deslocamento e trabalho.",
      "prev_af3dominios_insu" := "Propor\U{00E7}\U{00E3}o com soma de minutos semanais \U{2264}150 nos tr\U{00EA}s dom\U{00ED}nios.",
      "prev_tv_d_3" := "Propor\U{00E7}\U{00E3}o que assiste TV por 3 horas ou mais por dia.",
      "prev_doces5" := "Propor\U{00E7}\U{00E3}o que consome doces em 5 dias ou mais por semana.",
      "prev_refritl5" := "Propor\U{00E7}\U{00E3}o que consome refrigerantes em 5 dias ou mais por semana.",
      "prev_feijao5" := "Propor\U{00E7}\U{00E3}o que consome feij\U{00E3}o em 5 dias ou mais por semana.",
      "prev_carneg" := "Propor\U{00E7}\U{00E3}o que consome carne com gordura.",
      "prev_franpl" := "Propor\U{00E7}\U{00E3}o que consome frango com pele.",
      "prev_gordura" := "Propor\U{00E7}\U{00E3}o que consome carnes com excesso de gordura (carne com gordura OU frango com pele).",
      "prev_leiteint" := "Propor\U{00E7}\U{00E3}o que consome leite integral.",
      "prev_flvreco" := "Propor\U{00E7}\U{00E3}o que atinge recomenda\U{00E7}\U{00E3}o di\U{00E1}ria de frutas e hortali\U{00E7}as (regra Vigitel)."
    ]

  /** The sentence shown for an indicator without a definition. */
  const DefaultDef: string := "Preval\U{00EA}ncia (propor\U{00E7}\U{00E3}o) do indicador selecionado."

  /** The indicators the dashboard prefers to open on. */
  const Preferred: seq<string> := ["prev_ativo_lazer_unif", "prev_inativo"]
  // ---------------------------------------------------------------- titles

  /** The tag every indicator column starts with. */
  const Tag: string := "prev_"

  /** `s` holds the tag at position `i`. */
  predicate TagAt(s: string, i: int) {
    0 <= i && i + |Tag| <= |s| && s[i..i + |Tag|] == Tag
  }

  /** `s.replace("prev_", "")`: every occurrence found scanning left to right
      is removed; the scan resumes after the removed text, and text that comes
      together by a removal is not scanned again. */
  function RemoveTag(s: string): (r: string)
    ensures |r| <= |s|
    ensures IsSubseq(r, s)
    ensures (forall i :: !TagAt(s, i)) ==> r == s
    ensures (exists i :: TagAt(s, i)) ==> |r| <= |s| - |Tag|
  {
    if |s| < |Tag| then
      SubseqReflexive(s);
      s
    else if s[..|Tag|] == Tag then
      var rest := RemoveTag(s[|Tag|..]);
      TagShift(s, |Tag|);
      SkipKeepsSubseq(rest, s, |Tag|);
      assert TagAt(s, 0);
      rest
    else
      var rest := RemoveTag(s[1..]);
      TagShift(s, 1);
      TagUnshift(s);
      assert (forall i :: !TagAt(s, i)) ==> [s[0]] + s[1..] == s;
      [s[0]] + rest
  }

  /** A tag in a suffix of `s` is a tag of `s`, further right. */
  lemma TagShift(s: string, k: nat)
    requires k <= |s|
    ensures forall i :: TagAt(s[k..], i) ==> TagAt(s, i + k)
  {
    forall i | TagAt(s[k..], i) ensures TagAt(s, i + k) {
      assert s[k..][i..i + |Tag|] == s[i + k..i + k + |Tag|];
    }
  }

  /** A tag of `s` past its first character is a tag of `s[1..]`. */
  lemma TagUnshift(s: string)
    requires |s| > 0
    ensures forall i :: 1 <= i && TagAt(s, i) ==> TagAt(s[1..], i - 1)
  {
    forall i | 1 <= i && TagAt(s, i) ensures TagAt(s[1..], i - 1) {
      assert s[1..][i - 1..i - 1 + |Tag|] == s[i..i + |Tag|];
    }
  }

  /** A column name that is the tag followed by tag-free text loses exactly
      the tag: `"prev_obesidade"` becomes `"obesidade"`. */
  lemma RemoveLeadingTag(n: string)
    requires forall i :: !TagAt(n, i)
    ensures RemoveTag(Tag + n) == n
  {
    var s := Tag + n;
    assert s[..|Tag|] == Tag;
    assert s[|Tag|..] == n;
  }

  /** `replace` removes every occurrence, not just a leading one: the text
      before the first tag is kept, the tag goes, and the scan goes on with
      the rest. With the tag-free case of `RemoveTag`, this fixes its result
      on every string. */
  lemma {:induction false} RemoveTagSplit(a: string, b: string)
    requires forall i :: 0 <= i < |a| ==> !TagAt(a + Tag + b, i)
    ensures RemoveTag(a + Tag + b) == a + RemoveTag(b)
  {
    var s := a + Tag + b;
    if |a| == 0 {
      assert s == Tag + b;
      RemoveTagAtStart(b);
    } else {
      var t := a[1..] + Tag + b;
      assert s == [a[0]] + t;
      forall i | 0 <= i < |a[1..]| ensures !TagAt(t, i) {
        assert !TagAt(s, i + 1);
        TagAtTail(a[0], t, i);
      }
      assert !TagAt([a[0]] + t, 0);
      RemoveTagNoStart(a[0], t);
      RemoveTagSplit(a[1..], b);
      assert RemoveTag(s) == [a[0]] + RemoveTag(t);
      ConsAppend(a, RemoveTag(b));
    }
  }

  /** Splitting off the first element of `a` and appending `v` commute. */
  lemma ConsAppend<T>(a: seq<T>, v: seq<T>)
    requires |a| > 0
    ensures [a[0]] + (a[1..] + v) == a + v
  {
    assert a == [a[0]] + a[1..];
  }

  /** The tag at the front is dropped and the scan goes on after it. */
  lemma RemoveTagAtStart(b: string)
    ensures RemoveTag(Tag + b) == RemoveTag(b)
  {
    var s := Tag + b;
    assert s[..|Tag|] == Tag;
    assert s[|Tag|..] == b;
  }

  /** A first character that does not start a tag is kept. */
  lemma RemoveTagNoStart(c: char, t: string)
    requires !TagAt([c] + t, 0)
    requires |t| + 1 >= |Tag|
    ensures RemoveTag([c] + t) == [c] + RemoveTag(t)
  {
    var s := [c] + t;
    assert s[1..] == t;
  }

  /** A tag one character further right in `[c] + t` is a tag of `t`. */
  lemma TagAtTail(c: char, t: string, i: int)
    requires 0 <= i
    ensures TagAt([c] + t, i + 1) <==> TagAt(t, i)
  {
    if i + |Tag| <= |t| {
      assert ([c] + t)[i + 1..i + 1 + |Tag|] == t[i..i + |Tag|];
    }
  }

  /** A subsequence of a suffix is a subsequence of the whole. */
  lemma {:induction false} SkipKeepsSubseq(a: string, s: string, k: nat)
    requires k <= |s| && IsSubseq(a, s[k..])
    ensures IsSubseq(a, s)
    decreases k
  {
    if k > 0 {
      assert s[1..][k - 1..] == s[k..];
      SkipKeepsSubseq(a, s[1..], k - 1);
    }
  }

  /** `str.replace("_", " ")`. */
  function Underscores(s: string): (r: string)
    ensures |r| == |s|
    ensures forall i :: 0 <= i < |s| ==> r[i] == if s[i] == '_' then ' ' else s[i]
  {
    if |s| == 0 then [] else [if s[0] == '_' then ' ' else s[0]] + Underscores(s[1..])
  }

  predicate IsLower(c: char) {
    'a' <= c <= 'z'
  }

  /** A cased character, for `str.title`. */
  predicate IsLetter(c: char) {
    IsUpper(c) || IsLower(c)
  }

  function UpperChar(c: char): (d: char)
    ensures !IsLower(d)
  {
    if IsLower(c) then (c as int - 32) as char else c
  }

  /** Two characters that differ at most in case. */
  predicate SameLetter(c: char, d: char) {
    LowerChar(c) == LowerChar(d) && (IsLetter(c) <==> IsLetter(d))
  }

  /** A word starts at `i` of `s`: a letter not preceded by a letter. */
  predicate WordStart(s: string, i: int)
    requires 0 <= i < |s|
  {
    IsLetter(s[i]) && (i == 0 || !IsLetter(s[i - 1]))
  }

  /** `str.title` continued after a character that was (`cased`) or was not a
      letter. */
  function TitleFrom(s: string, cased: bool): (r: string)
    ensures |r| == |s|
    ensures forall i :: 0 <= i < |s| ==> SameLetter(r[i], s[i])
    ensures forall i :: 0 <= i < |s| && IsLetter(s[i]) ==>
              (IsUpper(r[i]) <==> if i == 0 then !cased else !IsLetter(s[i - 1]))
  {
    if |s| == 0 then []
    else
      var c := if !IsLetter(s[0]) then s[0] else if cased then LowerChar(s[0]) else UpperChar(s[0]);
      var rest := TitleFrom(s[1..], IsLetter(s[0]));
      assert forall i :: 1 <= i < |s| ==> s[1..][i - 1] == s[i];
      [c] + rest
  }

  /** `str.title`: the first letter of every word upper case, every other
      letter lower case, every other character as it was. */
  function Title(s: string): (r: string)
    ensures |r| == |s|
    ensures forall i :: 0 <= i < |s| ==> SameLetter(r[i], s[i])
    ensures forall i :: 0 <= i < |s| && IsLetter(s[i]) ==> (IsUpper(r[i]) <==> WordStart(s, i))
  {
    TitleFrom(s, false)
  }

  /** Title-casing twice is title-casing once. */
  lemma TitleIdempotent(s: string)
    ensures Title(Title(s)) == Title(s)
  {
    var t := Title(s);
    var u := Title(t);
    forall i | 0 <= i < |s| ensures u[i] == t[i] {
      if IsLetter(t[i]) {
        assert WordStart(t, i) <==> WordStart(s, i) by {
          assert SameLetter(t[i], s[i]);
          if i > 0 {
            assert SameLetter(t[i - 1], s[i - 1]);
          }
        }
      }
      SameCaseSameChar(u[i], t[i]);
    }
  }

  /** Two characters that differ at most in case, and agree on it, are equal. */
  lemma SameCaseSameChar(c: char, d: char)
    requires SameLetter(c, d)
    requires IsLetter(c) ==> (IsUpper(c) <==> IsUpper(d))
    ensures c == d
  {
  }

  /** `ind_title`: the table title of a known indicator; otherwise the column
      name without its tags, underscores as spaces, title-cased. */
  function IndTitle(ind: string): (r: string)
    ensures ind in IndicatorTitles ==> r == IndicatorTitles[ind]
    ensures ind !in IndicatorTitles ==> '_' !in r
    ensures ind !in IndicatorTitles ==> |r| == |RemoveTag(ind)| && forall i :: 0 <= i < |r| ==>
              SameLetter(r[i], Underscores(RemoveTag(ind))[i])
    ensures ind !in IndicatorTitles ==>
              var u := Underscores(RemoveTag(ind));
              forall i :: 0 <= i < |r| && IsLetter(u[i]) ==> (IsUpper(r[i]) <==> WordStart(u, i))
  {
    if ind in IndicatorTitles then IndicatorTitles[ind]
    else
      var r := Title(Underscores(RemoveTag(ind)));
      assert forall i :: 0 <= i < |r| ==> r[i] != '_';
      r
  }

  /** `ind_def`: the definition of a known indicator, the fixed sentence for
      any other. */
  function IndDef(ind: string): (r: string)
    ensures ind in IndicatorDefs ==> r == IndicatorDefs[ind]
    ensures ind !in IndicatorDefs ==> r == DefaultDef
    ensures r == DefaultDef <==> ind !in IndicatorDefs
  {
    if ind in IndicatorDefs then
      DefinitionsAreSpecific();
      IndicatorDefs[ind]
    else DefaultDef
  }

  /** No indicator's definition is the fixed sentence, and exactly the
      indicators with a title have a definition. */
  lemma DefinitionsAreSpecific()
    ensures forall k :: k in IndicatorDefs ==> IndicatorDefs[k] != DefaultDef
    ensures IndicatorDefs.Keys == IndicatorTitles.Keys
  {
  }

  // -------------------------------------------------------------- defaults

  /** `DEFAULT_IND`: the first preferred indicator of the list, or the first
      indicator when none is preferred; the list must not be empty, since
      the fallback is read before the search. */
  function DefaultInd(inds: seq<string>): (r: Res<string>)
    ensures r.Failure? <==> |inds| == 0
    ensures r.Failure? ==> r.error == NoIndicators
    ensures r.Success? ==> r.value in inds
    ensures r.Success? && (exists c :: c in inds && c in Preferred) ==>
              exists i :: (&& 0 <= i < |inds| && inds[i] == r.value && r.value in Preferred
                           && forall j :: 0 <= j < i ==> inds[j] !in Preferred)
    ensures r.Success? && (forall c :: c in inds ==> c !in Preferred) ==> r.value == inds[0]
  {
    if |inds| == 0 then Failure(NoIndicators)
    else
      match FirstPreferred(inds)
      case Some(c) => Success(c)
      case None => Success(inds[0])
  }

  /** The first element of the list that is preferred. */
  function FirstPreferred(inds: seq<string>): (r: Option<string>)
    ensures r.None? <==> forall c :: c in inds ==> c !in Preferred
    ensures r.Some? ==> exists i :: (&& 0 <= i < |inds| && inds[i] == r.value && r.value in Preferred
                                     && forall j :: 0 <= j < i ==> inds[j] !in Preferred)
  {
    if |inds| == 0 then None
    else if inds[0] in Preferred then
      Some(inds[0])
    else
      var r := FirstPreferred(inds[1..]);
      assert forall c :: c in inds ==> c == inds[0] || c in inds[1..];
      if r.Some? then
        var i :| (&& 0 <= i < |inds[1..]| && inds[1..][i] == r.value && r.value in Preferred
                  && forall j :: 0 <= j < i ==> inds[1..][j] !in Preferred);
        assert inds[i + 1] == r.value;
        assert forall j :: 1 <= j < i + 1 ==> inds[j] == inds[1..][j - 1];
        r
      else r
  }

  lemma LeisureBeforeInactivity()
    ensures StrLt("prev_ativo_lazer_unif", "prev_inativo")
  {
    assert "prev_ativo_lazer_unif"[5..] == "ativo_lazer_unif" && "prev_inativo"[5..] == "inativo";
    assert StrLt("ativo_lazer_unif", "inativo");
  }

  /** On the sorted indicator list of the metadata, leisure-time activity is
      chosen over inactivity when both are present. */
  lemma DefaultIndPrefersLeisure(inds: seq<string>)
    requires Sorted(inds, StrLt)
    requires "prev_ativo_lazer_unif" in inds && "prev_inativo" in inds
    ensures DefaultInd(inds) == Success("prev_ativo_lazer_unif")
  {
    LeisureBeforeInactivity();
    var p := FirstPreferred(inds);
    var i :| (&& 0 <= i < |inds| && inds[i] == p.value && p.value in Preferred
              && forall j :: 0 <= j < i ==> inds[j] !in Preferred);
    SmallerComesFirst(inds, StrLt, "prev_ativo_lazer_unif", "prev_inativo", i);
  }

  /** In a sorted list holding `a`, the first of two values `a` < `b` to
      occur is `a`. */
  lemma SmallerComesFirst<T>(s: seq<T>, lt: (T, T) -> bool, a: T, b: T, i: int)
    requires Sorted(s, lt) && lt(a, b) && a in s
    requires 0 <= i < |s| && (s[i] == a || s[i] == b)
    requires forall j :: 0 <= j < i ==> s[j] != a && s[j] != b
    ensures s[i] == a
  {
    var k :| 0 <= k < |s| && s[k] == a;
    assert i <= k;
    assert i < k ==> !lt(s[k], s[i]);
  }

  /** `DEFAULT_YEAR`: the last year of the list, if any. */
  function DefaultYear(anos: seq<int>): (r: Option<int>)
    ensures r.None? <==> |anos| == 0
    ensures r.Some? ==> r.value == anos[|anos| - 1]
  {
    if |anos| == 0 then None else Some(anos[|anos| - 1])
  }

  /** On the ascending year list of the metadata, the default year is the
      latest year. */
  lemma DefaultYearIsLatest(anos: seq<int>)
    requires StrictlySorted(anos, IntLt)
    requires |anos| > 0
    ensures DefaultYear(anos).Some?
    ensures forall a :: a in anos ==> a <= DefaultYear(anos).value
  {
    forall a | a in anos ensures a <= anos[|anos| - 1] {
      var i :| 0 <= i < |anos| && anos[i] == a;
      if i < |anos| - 1 {
        assert IntLt(anos[i], anos[|anos| - 1]);
      }
    }
  }
}
