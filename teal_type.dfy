/**
 * The part of a type description that signature rendering and generics
 * collection read: the printable name, the type's kind, and the optional list
 * of types it is generic over. Two types are the same value, and so the same
 * member of a set, exactly when all three agree, as with the derived equality
 * and hash of tealr's `TealType`.
 */
module TealTypes {

  /** `KindOfType`: a type built into Teal, one defined outside it, or a generic parameter. */
  datatype KindOfType = Builtin | External | Generic

  datatype TealType = TealType(name: string, typeKind: KindOfType, generics: GenericList) {
    /** `type_kind.is_generic()`. */
    const isGeneric: bool := typeKind.Generic?
  }

  /** `Option<Vec<TealType>>`: no generics list, or a list of types. */
  datatype GenericList = Absent | Present(types: seq<TealType>)

  /** `generics.unwrap_or_default()`: an absent list reads as the empty list. */
  function GenericsOf(t: TealType): seq<TealType> {
    match t.generics
    case Absent => []
    case Present(ts) => ts
  }

  /** Names of a list of types, in order. */
  function Names(ts: seq<TealType>): (ns: seq<string>)
    ensures |ns| == |ts|
    ensures forall k :: 0 <= k < |ts| ==> ns[k] == ts[k].name
  {
    if ts == [] then [] else [ts[0].name] + Names(ts[1..])
  }
}
