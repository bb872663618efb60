/**
 * What the named-parameters macro generates for a parameter type with fields
 * `f1 : T1, ..., fn : Tn`: the name parts of the type, which spell out
 * `f1 : T1 , ... , fn : Tn`, and the conversion from a Lua multi-value that
 * hands the values to the fields by position.
 */
module NamedParameters {
  import opened Wrappers
  import opened TealTypes

  /** A fragment of a printed type name: literal text, or a reference to a type. */
  datatype NamePart = Symbol(text: string) | Type(teal: TealType)

  /** One field of the generated type: its name and the name parts of its type. */
  datatype Field = Field(name: string, typeParts: seq<NamePart>)

  const Colon: NamePart := Symbol(" : ")
  const Separator: NamePart := Symbol(" , ")

  /** The parts pushed for one field: its name, " : ", its type's parts and " , ". */
  function FieldGroup(f: Field): (g: seq<NamePart>)
    ensures |g| == 3 + |f.typeParts|
  {
    [Symbol(f.name), Colon] + f.typeParts + [Separator]
  }

  /** The groups of all fields, in declaration order. */
  function Groups(fields: seq<Field>): seq<NamePart> {
    if fields == [] then [] else Groups(fields[..|fields| - 1]) + FieldGroup(fields[|fields| - 1])
  }

  /** How many parts the groups of `fields` hold. */
  function PartCount(fields: seq<Field>): (n: nat)
    ensures n >= 3 * |fields|
  {
    if fields == [] then 0 else PartCount(fields[..|fields| - 1]) + 3 + |fields[|fields| - 1].typeParts|
  }

  /**
   * `get_type_parts`: pushes each field's group in turn, then removes the
   * last part. The macro must be given at least one field: with none,
   * `x.len() - 1` has no value and the call panics.
   */
  method GetTypeParts(fields: seq<Field>) returns (x: seq<NamePart>)
    requires |fields| >= 1
    ensures x + [Separator] == Groups(fields)
    ensures |x| == PartCount(fields) - 1
    ensures forall k :: 0 <= k < |fields| ==>
              Offset(fields, k) + 1 < |x| && x[Offset(fields, k)] == Symbol(fields[k].name) && x[Offset(fields, k) + 1] == Colon
  {
    x := [];
    var i := 0;
    while i < |fields|
      invariant 0 <= i <= |fields|
      invariant x == Groups(fields[..i])
      invariant |x| == PartCount(fields[..i])
    {
      var field := fields[i];
      x := x + [Symbol(field.name)];
      x := x + [Colon];
      x := x + field.typeParts;
      x := x + [Separator];
      assert fields[..i + 1][..i] == fields[..i];
      i := i + 1;
    }
    assert fields[..i] == fields;
    x := x[..|x| - 1];
    FieldHeads(fields, x);
  }

  /** Where the group of field `k` starts. */
  function Offset(fields: seq<Field>, k: nat): nat
    requires k <= |fields|
  {
    PartCount(fields[..k])
  }

  lemma {:induction false} GroupsLength(fields: seq<Field>)
    ensures |Groups(fields)| == PartCount(fields)
  {
    if fields != [] {
      GroupsLength(fields[..|fields| - 1]);
    }
  }

  /** Groups of a prefix of the fields are a prefix of the groups. */
  lemma {:induction false} GroupsPrefix(fields: seq<Field>, k: nat)
    requires k <= |fields|
    ensures Groups(fields[..k]) <= Groups(fields)
    decreases |fields|
  {
    if k < |fields| {
      var init := fields[..|fields| - 1];
      assert init[..k] == fields[..k];
      GroupsPrefix(init, k);
    } else {
      assert fields[..k] == fields;
    }
  }

  /**
   * The parts from the start of field `k`'s group on are that field's name,
   * " : ", its type's parts and " , ", in that order.
   */
  lemma FieldGroupAt(fields: seq<Field>, k: nat)
    requires k < |fields|
    ensures Offset(fields, k) + 3 + |fields[k].typeParts| <= |Groups(fields)|
    ensures Groups(fields)[Offset(fields, k)..Offset(fields, k) + 3 + |fields[k].typeParts|]
            == FieldGroup(fields[k])
  {
    var pre := fields[..k + 1];
    assert pre[..k] == fields[..k] && pre[k] == fields[k];
    GroupsPrefix(fields, k + 1);
    GroupsLength(fields[..k]);
    var g := Groups(fields);
    var o := Offset(fields, k);
    var gp := Groups(pre);
    assert gp == Groups(fields[..k]) + FieldGroup(fields[k]);
    assert |Groups(fields[..k])| == o;
    assert gp[o..] == FieldGroup(fields[k]);
    assert gp <= g;
    assert g[o..o + |FieldGroup(fields[k])|] == gp[o..];
  }

  /** Field `k`'s group starts with its name and " : ", and the trailing separator comes later. */
  lemma FieldHeadAt(fields: seq<Field>, k: nat)
    requires k < |fields|
    ensures Offset(fields, k) + 2 < |Groups(fields)|
    ensures Groups(fields)[Offset(fields, k)] == Symbol(fields[k].name)
    ensures Groups(fields)[Offset(fields, k) + 1] == Colon
  {
    FieldGroupAt(fields, k);
    var o := Offset(fields, k);
    var g := Groups(fields)[o..o + 3 + |fields[k].typeParts|];
    assert g[0] == Symbol(fields[k].name) && g[1] == Colon;
  }

  /** Once the trailing separator is gone, every field's group still starts with its name and " : ". */
  lemma FieldHeads(fields: seq<Field>, x: seq<NamePart>)
    requires |fields| >= 1 && x + [Separator] == Groups(fields)
    ensures forall k :: 0 <= k < |fields| ==>
              Offset(fields, k) + 1 < |x| && x[Offset(fields, k)] == Symbol(fields[k].name) && x[Offset(fields, k) + 1] == Colon
  {
    forall k | 0 <= k < |fields|
      ensures Offset(fields, k) + 1 < |x|
      ensures x[Offset(fields, k)] == Symbol(fields[k].name) && x[Offset(fields, k) + 1] == Colon
    {
      FieldHeadAt(fields, k);
      assert x == (x + [Separator])[..|x|];
    }
  }

  /**
   * After the removal the last part is the last part of the last field's type,
   * or " : " when that type has no parts: only the trailing separator went.
   */
  lemma LastPart(fields: seq<Field>, x: seq<NamePart>)
    requires |fields| >= 1 && x + [Separator] == Groups(fields)
    ensures var last := fields[|fields| - 1];
            x != [] && x[|x| - 1] == if last.typeParts == [] then Colon else last.typeParts[|last.typeParts| - 1]
  {
    var last := fields[|fields| - 1];
    var g := Groups(fields);
    assert g == Groups(fields[..|fields| - 1]) + FieldGroup(last);
    assert g[|g| - 2] == x[|x| - 1];
  }

  /**
   * The macro's documented use, `Example with field_1 : String, field_2 : i64`,
   * given the parts the two field types print as.
   */
  method ExampleTypeParts(stringParts: seq<NamePart>, i64Parts: seq<NamePart>) returns (x: seq<NamePart>)
    ensures x == [Symbol("field_1"), Colon] + stringParts + [Separator, Symbol("field_2"), Colon] + i64Parts
  {
    var f1 := Field("field_1", stringParts);
    var f2 := Field("field_2", i64Parts);
    x := GetTypeParts([f1, f2]);
    TwoFieldGroups(f1, f2);
    var w := [Symbol("field_1"), Colon] + stringParts + [Separator, Symbol("field_2"), Colon] + i64Parts;
    assert FieldGroup(f1) + FieldGroup(f2) == w + [Separator];
    assert x == (x + [Separator])[..|x|];
  }

  /** Two fields: the first field's group, then the second's. */
  lemma TwoFieldGroups(f1: Field, f2: Field)
    ensures Groups([f1, f2]) == FieldGroup(f1) + FieldGroup(f2)
  {
    assert [f1, f2][..1] == [f1];
    assert [f1][..0] == [];
    assert Groups([f1]) == [] + FieldGroup(f1);
    assert Groups([f1, f2]) == Groups([f1]) + FieldGroup(f2);
  }

  // ---------------------------------------------------------------------------
  // Filling the fields from a Lua multi-value

  /** A Lua value as far as the positional filling is concerned: nil, or some other value. */
  datatype LuaValue = Nil | Value(handle: nat)

  /** The value field `i` receives: the i-th supplied value, or nil once they run out. */
  function Arg(values: seq<LuaValue>, i: nat): (v: LuaValue)
    ensures i >= |values| ==> v == Nil
  {
    if i < |values| then values[i] else Nil
  }

  /**
   * `from_lua_multi`: fills the fields in declaration order, each from the
   * front of the value queue (nil once it is empty), converting each value
   * with the field's own conversion; the first conversion that fails ends the
   * call with its error, and values beyond the last field are left unused.
   * Field `i`'s conversion is `fromLua(i, _)`.
   */
  method FromLuaMulti<T, E>(fieldCount: nat, values: seq<LuaValue>, fromLua: (nat, LuaValue) -> Result<T, E>)
    returns (r: Result<seq<T>, E>)
    ensures r.Success? <==> forall i :: 0 <= i < fieldCount ==> fromLua(i, Arg(values, i)).Success?
    ensures r.Success? ==> |r.value| == fieldCount
    ensures r.Success? ==> forall i :: 0 <= i < fieldCount ==> r.value[i] == fromLua(i, Arg(values, i)).value
    ensures r.Failure? ==> exists k :: 0 <= k < fieldCount && fromLua(k, Arg(values, k)) == Failure(r.error)
                                       && forall j :: 0 <= j < k ==> fromLua(j, Arg(values, j)).Success?
  {
    var queue := values;
    var fields: seq<T> := [];
    var i := 0;
    while i < fieldCount
      invariant 0 <= i <= fieldCount
      invariant queue == if i < |values| then values[i..] else []
      invariant |fields| == i
      invariant forall j :: 0 <= j < i ==> fromLua(j, Arg(values, j)).Success?
      invariant forall j :: 0 <= j < i ==> fields[j] == fromLua(j, Arg(values, j)).value
    {
      var value := Nil;
      if queue != [] {
        value := queue[0];
        queue := queue[1..];
      }
      assert value == Arg(values, i);
      var converted := fromLua(i, value);
      if converted.Failure? {
        return Failure(converted.error);
      }
      fields := fields + [converted.value];
      i := i + 1;
    }
    r := Success(fields);
  }
}
