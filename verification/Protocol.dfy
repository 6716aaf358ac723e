/** The part of a protocol definition that the schema analyses look at. */
module Protocol {
  import opened Errors

  type Name = string

  ghost predicate Distinct(ns: seq<Name>) {
    forall i, j :: 0 <= i < j < |ns| ==> ns[i] != ns[j]
  }

  datatype Base = Numeric | Bool | Bytes | Text

  datatype TypeDef = TypeDef(base: Base, bits: int, length: Option<int>, charBits: Option<int>)

  datatype Field = Field(
    optional: bool, isInline: bool, typeRef: Name, bits: Option<int>, bytesAttr: Option<int>, length: Option<int>)

  /** Children of structs and messages; optional stands for a bitmap bit or a present-when condition. */
  datatype Child =
    | FieldChild(field: Field)
    | StructChild(optional: bool, isBitmap: bool, children: seq<Child>)
    | ArrayChild(openEnded: bool, optional: bool, fixedCount: Option<int>, typeRef: Name, children: seq<Child>)
    | ChoiceChild(cases: seq<Case>, otherwise: seq<Child>)
    | FxChild(children: seq<Child>)
    | ReservedChild(bits: int)
    | AlignChild

  datatype Case = Case(children: seq<Child>)

  datatype StructDef = StructDef(isBitmap: bool, children: seq<Child>)

  /** Name lookup; the resolver rejects names defined in two categories. */
  datatype Index = Index(types: map<Name, TypeDef>, structs: map<Name, StructDef>, messages: map<Name, seq<Child>>) {
    predicate IsStructOrMessage(n: Name) {
      n in structs || n in messages
    }

    function Nodes(): set<Name> {
      structs.Keys + messages.Keys
    }

    /** Struct first, then message; nothing otherwise. */
    function ChildrenOf(n: Name): seq<Child> {
      if n in structs then structs[n].children
      else if n in messages then messages[n]
      else []
    }
  }
}
