/** Records of a category and the text of the token inserted for one. */
module Mentions {
  import opened Wrappers
  import opened Strings

  /** One entry of `data[tipo]`; either field may be absent. */
  datatype Record = Record(nome: Option<string>, descricao: Option<string>)

  /** JavaScript truthiness of an optional string: present and non-empty. */
  predicate Truthy(f: Option<string>) {
    f.Some? && f.value != []
  }

  /** `registro.nome || registro.descricao`; `None` is `undefined`. */
  function DisplayName(rec: Record): Option<string> {
    if Truthy(rec.nome) then rec.nome else rec.descricao
  }

  /** How a template literal renders an optional string. */
  function Interpolate(f: Option<string>): string {
    if f.Some? then f.value else "undefined"
  }

  /** `t.charAt(0).toUpperCase() + t.slice(1).toLowerCase()`. */
  function Capitalise(t: string): (c: string)
    ensures |c| == |t|
    ensures |t| > 0 ==> c[0] == UpperChar(t[0])
    ensures forall i :: 0 < i < |t| ==> c[i] == LowerChar(t[i])
    ensures ToLower(c) == ToLower(t)
  {
    if t == [] then []
    else
      var c := [UpperChar(t[0])] + ToLower(t[1..]);
      assert forall i :: 0 <= i < |t| ==> ToLower(c)[i] == ToLower(t)[i] by {
        forall i | 0 <= i < |t|
          ensures ToLower(c)[i] == ToLower(t)[i]
        {
          LowerOfUpper(t[i]);
        }
      }
      c
  }

  /** The visible text of the token: the capitalised category, a colon,
      then `nome || descricao`. */
  function MentionLabel(tipo: string, rec: Record): (text: string)
    ensures |text| == |tipo| + 1 + |Interpolate(DisplayName(rec))|
    ensures text[..|tipo|] == Capitalise(tipo)
    ensures text[|tipo|] == ':'
    ensures text[|tipo| + 1..] == Interpolate(DisplayName(rec))
  {
    Capitalise(tipo) + [':'] + Interpolate(DisplayName(rec))
  }

  /** The label names the record it was made from: the part after the
      category is `nome` when that is non-empty and `descricao` otherwise,
      and the category part equals the category up to case. */
  lemma LabelNamesRecord(tipo: string, rec: Record)
    ensures var text := MentionLabel(tipo, rec);
      && ToLower(text[..|tipo|]) == ToLower(tipo)
      && (Truthy(rec.nome) ==> text[|tipo| + 1..] == rec.nome.value)
      && (!Truthy(rec.nome) && rec.descricao.Some? ==> text[|tipo| + 1..] == rec.descricao.value)
  {
  }

  /** The record filter of `handleKeyUp`: `nome` or `descricao`,
      lower-cased, includes the query. */
  predicate RecordMatches(q: string, rec: Record) {
    || (rec.nome.Some? && Includes(ToLower(rec.nome.value), q))
    || (rec.descricao.Some? && Includes(ToLower(rec.descricao.value), q))
  }

  /** The category filter of `handleKeyUp`. */
  predicate TypeMatches(q: string, tipo: string) {
    Includes(ToLower(tipo), q)
  }
}
