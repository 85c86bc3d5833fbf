/** How a table argument (a plain name or a type definition) names its SQL table. */
module Util {
  import opened Js

  /** The part of a type definition that `getTableName` reads. */
  datatype TypeDef = TypeDef(name: string, sqlTable: Option<string>)

  /** `string | TypeDef`. */
  datatype TableRef = Named(table: string) | Defined(def: TypeDef)

  /** `getTableName`: a string passes through; a definition gives `sqlTable ?? name`. */
  function GetTableName(t: TableRef): (name: string)
    ensures t.Named? ==> name == t.table
    ensures t.Defined? && t.def.sqlTable.Some? ==> name == t.def.sqlTable.value
    ensures t.Defined? && t.def.sqlTable.None? ==> name == t.def.name
  {
    match t
    case Named(s) => s
    case Defined(d) => if d.sqlTable.Some? then d.sqlTable.value else d.name
  }

  /** Resolving a resolved name again changes nothing. */
  lemma GetTableNameIdempotent(t: TableRef)
    ensures GetTableName(Named(GetTableName(t))) == GetTableName(t)
  {
  }
}
