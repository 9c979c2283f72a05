/**
 * A normative document record: the dictionary that scrapers produce and that
 * the graph and the quality checker consume.
 */
module Norms {
  import opened Wrappers

  /**
   * A dictionary entry read with `get`: the key may be absent, present with
   * value `None`, or present with a string. Lookups with a default
   * (`norm.get('tema_principal', 'uncategorized')`) tell the first two apart.
   */
  datatype Field = Absent | Null | Text(s: string)

  /**
   * The keys of a record that the core reads. `relations` holds the
   * relationship lists by key (`altera`, `revoga`, ...); a key whose value is
   * not a list is left out of it, since every reader skips such a value.
   */
  datatype Norm = Norm(
    idNorma: Option<string>,           // 'id_norma'
    tipo: Option<string>,              // 'tipo'
    numero: Option<string>,            // 'numero'
    ano: Option<int>,                  // 'ano'
    temaPrincipal: Field,              // 'tema_principal'
    statusVigencia: Option<string>,    // 'status_vigencia'
    fonte: Field,                      // 'fonte'
    efeitosFinanceiros: Option<string>, // 'efeitos_financeiros_partir_de'
    relations: map<string, seq<string>>)

  /** Python truthiness of an optional string: present and non-empty. */
  predicate Truthy(v: Option<string>)
  {
    v.Some? && v.value != ""
  }

  /** Python truthiness of an optional integer: present and non-zero. */
  predicate TruthyYear(v: Option<int>)
  {
    v.Some? && v.value != 0
  }

  /** `norm.get(kind, [])` when the value is a list. */
  function RelationTargets(n: Norm, kind: string): seq<string>
  {
    if kind in n.relations then n.relations[kind] else []
  }

  /** `norm.get('tema_principal')`: `None` when the key is absent or null. */
  function ThemeValue(n: Norm): Option<string>
  {
    match n.temaPrincipal
    case Text(s) => Some(s)
    case _ => None
  }

  const Altera := "altera"
  const Revoga := "revoga"
  const Regulamenta := "regulamenta"
  const Consolida := "consolida"
}
