/** What the register schema lets through: types, lengths and how the two are reconciled
    (registers/schema.py, registers/parser.py). */
module RegisterSchema {
  import opened Common
  import opened RegisterDefs

  /** A declared data type; Unknown is any text the schema has no name for. */
  datatype TypeName =
    | U16Type | I16Type | BitmaskType | U32Type | I32Type | F32Type | U64Type | I64Type | F64Type | StringType
    | Unknown(name: string)

  /** The parts of an entry the type check looks at: its type, the type inside its extra metadata, and its
      length. */
  datatype Entry = Entry(declared: Option<TypeName>, inner: Option<TypeName>, length: Option<int>)

  datatype SchemaError = LengthMismatch | StringNeedsLength | UnknownType | NegativeLength

  /** Words a type takes; None leaves it to the entry. */
  function TypeLength(t: TypeName): Option<nat> {
    match t
    case U16Type => Some(1)
    case I16Type => Some(1)
    case BitmaskType => Some(1)
    case U32Type => Some(2)
    case I32Type => Some(2)
    case F32Type => Some(2)
    case U64Type => Some(4)
    case I64Type => Some(4)
    case F64Type => Some(4)
    case StringType => None
    case Unknown(_) => None
  }

  /** The type that is checked: the entry's own, or else the inner one. */
  function CheckedType(e: Entry): Option<TypeName> {
    if e.declared.Some? then e.declared else e.inner
  }

  /** The type that the codec later uses: the inner one is kept when there is one. */
  function CodecType(e: Entry): Option<TypeName> {
    if e.inner.Some? then e.inner else e.declared
  }

  /** The length a valid entry ends up with. A length below zero is never useful and left out. */
  function LoadedLength(e: Entry): Result<nat, SchemaError> {
    var checked := CheckedType(e);
    if e.length.Some? && e.length.value < 0 then Err(NegativeLength)
    else if checked.None? then Ok(if e.length.Some? then e.length.value else 1)
    else if TypeLength(checked.value).None? then
      if e.length.None? || e.length.value < 1 then Err(StringNeedsLength)
      else if checked.value.Unknown? then Err(UnknownType)
      else Ok(e.length.value)
    else if e.length.Some? && e.length.value != TypeLength(checked.value).value then Err(LengthMismatch)
    else Ok(TypeLength(checked.value).value)
  }

  /** How the codec treats a type; floats are not modelled, and a name it does not know is a plain number. */
  function KindOf(t: Option<TypeName>): Option<Kind> {
    match t
    case Some(I16Type) => Some(I16)
    case Some(U32Type) => Some(U32)
    case Some(I32Type) => Some(I32)
    case Some(U64Type) => Some(U64)
    case Some(I64Type) => Some(I64)
    case Some(StringType) => Some(Text)
    case Some(F32Type) => None
    case Some(F64Type) => None
    case _ => Some(Plain)
  }

  /** The definition comes from this entry. */
  predicate LoadedFrom(def: RegisterDef, e: Entry) {
    LoadedLength(e) == Ok(def.length) && KindOf(CodecType(e)) == Some(def.kind)
  }

  /** The two types, where both are given, say the same. */
  predicate TypesAgree(e: Entry) {
    e.declared.Some? && e.inner.Some? ==> e.declared == e.inner
  }

  /** The two readings of an entry, type by type: its own type or else the inner one fixes the length, the
      inner one or else its own the kind. */
  lemma LoadedAsWritten(def: RegisterDef, e: Entry)
    ensures LoadedFrom(def, e) <==>
            && (match if e.declared.Some? then e.declared else e.inner
                case None => def.length == if e.length.Some? then e.length.value else 1
                case Some(StringType) => e.length == Some(def.length) && def.length >= 1
                case Some(Unknown(_)) => false
                case Some(sized) =>
                  && def.length == (if sized in {U16Type, I16Type, BitmaskType} then 1
                                    else if sized in {U32Type, I32Type, F32Type} then 2 else 4)
                  && (e.length.None? || e.length.value == def.length))
            && (match if e.inner.Some? then e.inner else e.declared
                case None => def.kind == Plain
                case Some(U16Type) => def.kind == Plain
                case Some(I16Type) => def.kind == I16
                case Some(BitmaskType) => def.kind == Plain
                case Some(U32Type) => def.kind == U32
                case Some(I32Type) => def.kind == I32
                case Some(F32Type) => false
                case Some(U64Type) => def.kind == U64
                case Some(I64Type) => def.kind == I64
                case Some(F64Type) => false
                case Some(StringType) => def.kind == Text
                case Some(Unknown(_)) => def.kind == Plain)
    ensures e.declared.None? || e.inner.None? || e.declared.value == e.inner.value <==> TypesAgree(e)
  {
  }

  /** When the two types agree, a loaded register is as long as its type is wide. */
  lemma AgreeingLength(def: RegisterDef, e: Entry)
    requires LoadedFrom(def, e) && TypesAgree(e)
    ensures CodecType(e).Some? && TypeLength(CodecType(e).value).Some? ==>
              def.length == TypeLength(CodecType(e).value).value
  {
    assert CheckedType(e) == CodecType(e);
  }
}
