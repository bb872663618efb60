/**
 * `ExportedFunction`: what is needed to write down the type of one function
 * exposed to Lua, the collection of the generic types it mentions, and the
 * rendering of its Teal signature line.
 */
module ExportedFunctions {
  import opened Wrappers
  import opened TealTypes
  import opened Utf8
  import opened Text
  import opened StringOrder

  datatype ExportedFunction = ExportedFunction(
    name: seq<Byte>,
    generics: set<TealType>,
    params: seq<TealType>,
    returnTypes: seq<TealType>,
    isMetaMethod: bool)

  // ---------------------------------------------------------------------------
  // Generics collection

  /**
   * The generics collected from `ts`: for each type, those collected from its
   * own generics list (absent meaning empty), and the type itself when its
   * kind is generic.
   */
  ghost function AllGenerics(ts: seq<TealType>): (gs: set<TealType>)
    ensures forall x :: x in gs ==> x.isGeneric
    decreases ts, 1
  {
    if ts == [] then {} else Contribution(ts[0]) + AllGenerics(ts[1..])
  }

  /** What one type adds to the collection. */
  ghost function Contribution(t: TealType): (gs: set<TealType>)
    ensures forall x :: x in gs ==> x.isGeneric
    ensures t.isGeneric <==> t in gs
    decreases t, 0
  {
    var below := match t.generics case Absent => {} case Present(ts) => AllGenerics(ts);
    below + (if t.isGeneric then {t} else {})
  }

  /**
   * `x` can be reached from `ts`: a chain of types starting at an element of
   * `ts`, each the next one's parent through its generics list, ends at `x`.
   */
  ghost predicate IsPath(p: seq<TealType>, ts: seq<TealType>) {
    |p| >= 1 && p[0] in ts && forall k :: 0 <= k < |p| - 1 ==> p[k + 1] in GenericsOf(p[k])
  }

  ghost predicate Reachable(x: TealType, ts: seq<TealType>) {
    exists p :: IsPath(p, ts) && p[|p| - 1] == x
  }

  /** Collecting from a concatenation collects from both parts. */
  lemma {:induction false} AllGenericsAppend(a: seq<TealType>, b: seq<TealType>)
    ensures AllGenerics(a + b) == AllGenerics(a) + AllGenerics(b)
    decreases |a|
  {
    if a != [] {
      assert (a + b)[0] == a[0] && (a + b)[1..] == a[1..] + b;
      AllGenericsAppend(a[1..], b);
    } else {
      assert a + b == b;
    }
  }

  /** A type with no generics list contributes only itself, and only when its kind is generic. */
  lemma NoGenericsListContributesNothing(t: TealType)
    requires t.generics.Absent?
    ensures Contribution(t) == if t.isGeneric then {t} else {}
  {
  }

  lemma {:induction false} ContributionIncluded(ts: seq<TealType>, i: nat)
    requires i < |ts|
    ensures Contribution(ts[i]) <= AllGenerics(ts)
  {
    if i > 0 {
      ContributionIncluded(ts[1..], i - 1);
    }
  }

  /** Whatever is collected is of generic kind and reachable from the input. */
  lemma {:induction false} CollectedIsGenericAndReachable(ts: seq<TealType>, x: TealType)
    requires x in AllGenerics(ts)
    ensures x.isGeneric && Reachable(x, ts)
    decreases ts
  {
    var t := ts[0];
    if x in AllGenerics(ts[1..]) {
      CollectedIsGenericAndReachable(ts[1..], x);
      var p :| IsPath(p, ts[1..]) && p[|p| - 1] == x;
      assert IsPath(p, ts);
    } else if t.generics.Present? && x in AllGenerics(t.generics.types) {
      var gs := t.generics.types;
      assert GenericsOf(t) == gs;
      CollectedIsGenericAndReachable(gs, x);
      var p :| IsPath(p, gs) && p[|p| - 1] == x;
      var q := [t] + p;
      assert |q| == |p| + 1 && q[0] == t && q[1] == p[0];
      forall k | 0 <= k < |q| - 1
        ensures q[k + 1] in GenericsOf(q[k])
      {
        if k > 0 {
          assert q[k] == p[k - 1] && q[k + 1] == p[k];
        }
      }
      assert q[|q| - 1] == x;
      assert IsPath(q, ts);
    } else {
      assert x == t && t.isGeneric;
      assert IsPath([t], ts);
    }
  }

  /** Every reachable type of generic kind is collected. */
  lemma {:induction false} ReachableGenericIsCollected(ts: seq<TealType>, p: seq<TealType>)
    requires IsPath(p, ts) && p[|p| - 1].isGeneric
    ensures p[|p| - 1] in AllGenerics(ts)
    decreases ts
  {
    var i :| 0 <= i < |ts| && ts[i] == p[0];
    ContributionIncluded(ts, i);
    if |p| > 1 {
      var q := p[1..];
      assert IsPath(q, GenericsOf(p[0])) by {
        assert forall k :: 0 <= k < |q| - 1 ==> q[k] == p[k + 1];
      }
      var gs := ts[i].generics.types;
      assert ts[i] in ts;
      ReachableGenericIsCollected(gs, q);
    }
  }

  /** The collection holds exactly the types of generic kind reachable from the input. */
  lemma AllGenericsCharacterization(ts: seq<TealType>, x: TealType)
    ensures x in AllGenerics(ts) <==> x.isGeneric && Reachable(x, ts)
  {
    if x in AllGenerics(ts) {
      CollectedIsGenericAndReachable(ts, x);
    }
    if x.isGeneric && Reachable(x, ts) {
      var p :| IsPath(p, ts) && p[|p| - 1] == x;
      ReachableGenericIsCollected(ts, p);
    }
  }

  /** `get_all_generics`: a loop over the input that recurses into each type's generics list. */
  method GetAllGenerics(children: seq<TealType>) returns (generics: set<TealType>)
    ensures generics == AllGenerics(children)
    decreases children
  {
    generics := {};
    var i := 0;
    while i < |children|
      invariant 0 <= i <= |children|
      invariant generics == AllGenerics(children[..i])
    {
      var tealType := children[i];
      var childGenerics: set<TealType> := {};
      if tealType.generics.Present? {
        assert tealType in children;
        childGenerics := GetAllGenerics(tealType.generics.types);
      }
      generics := generics + childGenerics;
      if tealType.isGeneric {
        generics := generics + {tealType};
      }
      assert children[..i + 1] == children[..i] + [tealType];
      AllGenericsAppend(children[..i], [tealType]);
      i := i + 1;
    }
    assert children[..i] == children;
  }

  /**
   * `ExportedFunction::new`, given the parameter and return types: keeps them
   * as they are and collects the generics from the parameters followed by the
   * returns.
   */
  method New(name: seq<Byte>, isMetaMethod: bool, params: seq<TealType>, returnTypes: seq<TealType>)
    returns (f: ExportedFunction)
    ensures f.name == name && f.isMetaMethod == isMetaMethod
    ensures f.params == params && f.returnTypes == returnTypes
    ensures f.generics == AllGenerics(params) + AllGenerics(returnTypes)
    ensures forall g :: g in f.generics <==> g.isGeneric && Reachable(g, params + returnTypes)
  {
    var generics := GetAllGenerics(params + returnTypes);
    AllGenericsAppend(params, returnTypes);
    forall g
      ensures g in generics <==> g.isGeneric && Reachable(g, params + returnTypes)
    {
      AllGenericsCharacterization(params + returnTypes, g);
    }
    f := ExportedFunction(name, generics, params, returnTypes, isMetaMethod);
  }

  // ---------------------------------------------------------------------------
  // Rendering

  /** The names of a set of types, listed in some order, one per member. */
  ghost function GenericNames(gs: set<TealType>): (ns: seq<string>)
    ensures |ns| == |gs|
  {
    if gs == {} then []
    else
      var t :| t in gs;
      [t.name] + GenericNames(gs - {t})
  }

  /** Whichever member is listed first, the names present are the same. */
  lemma {:induction false} GenericNamesRemove(gs: set<TealType>, t: TealType)
    requires t in gs
    ensures multiset(GenericNames(gs)) == multiset{t.name} + multiset(GenericNames(gs - {t}))
    decreases |gs|
  {
    var u :| u in gs && GenericNames(gs) == [u.name] + GenericNames(gs - {u});
    if u != t {
      GenericNamesRemove(gs - {u}, t);
      GenericNamesRemove(gs - {t}, u);
      assert gs - {u} - {t} == gs - {t} - {u};
    }
  }

  /** Each listed name is the name of a member. */
  lemma {:induction false} GenericNamesFromMembers(gs: set<TealType>, n: string)
    requires n in GenericNames(gs)
    ensures exists t :: t in gs && t.name == n
    decreases |gs|
  {
    var u :| u in gs && GenericNames(gs) == [u.name] + GenericNames(gs - {u});
    if n != u.name {
      GenericNamesFromMembers(gs - {u}, n);
    }
  }

  /** The generic names in the order the header lists them. */
  ghost function SortedGenericNames(gs: set<TealType>): (ns: seq<string>)
    ensures Sorted(ns) && |ns| == |gs|
    ensures multiset(ns) == multiset(GenericNames(gs))
    ensures forall t :: t in gs ==> t.name in ns
    ensures forall n :: n in ns ==> exists t :: t in gs && t.name == n
  {
    var names := GenericNames(gs);
    var sorted := Sort(names);
    assert forall n :: n in sorted <==> n in names by {
      forall n ensures n in sorted <==> n in names {
        assert n in sorted <==> n in multiset(sorted);
        assert n in names <==> n in multiset(names);
      }
    }
    assert forall t :: t in gs ==> t.name in names by {
      forall t | t in gs ensures t.name in names {
        GenericNamesRemove(gs, t);
        assert t.name in multiset(names);
      }
    }
    assert forall n :: n in names ==> exists t :: t in gs && t.name == n by {
      forall n | n in names ensures exists t :: t in gs && t.name == n {
        GenericNamesFromMembers(gs, n);
      }
    }
    assert |sorted| == |multiset(sorted)| == |names|;
    sorted
  }

  /** The generics header: empty with no generics, else the sorted names joined by "," in angle brackets. */
  ghost function GenericsHeader(gs: set<TealType>): (h: string)
    ensures h == "" <==> gs == {}
    ensures gs != {} ==> |h| >= 2 && h[0] == '<' && h[|h| - 1] == '>'
  {
    if gs == {} then "" else "<" + Join(SortedGenericNames(gs), ",") + ">"
  }

  /** The parameter list: the receiver's type, when there is one, then each parameter's name. */
  function ParamList(selfType: Option<string>, params: seq<TealType>): (r: string)
    ensures selfType.Some? ==> selfType.value <= r
    ensures selfType.None? && params == [] ==> r == ""
    ensures selfType.None? && |params| == 1 ==> r == params[0].name
  {
    var all := (if selfType.Some? then [selfType.value] else []) + Names(params);
    assert all != [] ==> all[0] <= Join(all, ", ") by {
      if all != [] { JoinHead(all, ", "); }
    }
    Join(all, ", ")
  }

  /** The return list: each return type's name, in order. */
  function ReturnList(returnTypes: seq<TealType>): (r: string)
    ensures returnTypes == [] ==> r == ""
    ensures |returnTypes| == 1 ==> r == returnTypes[0].name
  {
    Join(Names(returnTypes), ", ")
  }

  /** Each line marked as a Teal comment. */
  function Commented(ls: seq<string>): (cs: seq<string>)
    ensures |cs| == |ls|
    ensures forall k :: 0 <= k < |ls| ==> |cs[k]| == |ls[k]| + 2 && cs[k][..2] == "--" && cs[k][2..] == ls[k]
  {
    seq(|ls|, k requires 0 <= k < |ls| => "--" + ls[k])
  }

  /** The documentation block: each line of the entry for `name` as a comment line, or nothing. */
  function DocPrefix(documentation: map<seq<Byte>, string>, name: seq<Byte>): (r: string)
    ensures name !in documentation ==> r == ""
    ensures r == "" || EndsWith(r, '\n')
  {
    if name in documentation then Terminated(Commented(Lines(documentation[name]))) else ""
  }

  function MetaPrefix(isMetaMethod: bool): (r: string)
    ensures isMetaMethod <==> r != ""
    ensures r == "" || r == "metamethod "
  {
    if isMetaMethod then "metamethod " else ""
  }

  /** `generics.into_iter().map(|v| v.name).collect()`: one name per member, in the set's iteration order. */
  method CollectGenericNames(gs: set<TealType>) returns (names: seq<string>)
    ensures multiset(names) == multiset(GenericNames(gs))
  {
    var rest := gs;
    names := [];
    while rest != {}
      invariant multiset(names) + multiset(GenericNames(rest)) == multiset(GenericNames(gs))
      decreases |rest|
    {
      var t :| t in rest;
      GenericNamesRemove(rest, t);
      names := names + [t.name];
      rest := rest - {t};
    }
  }

  /** The generics header as `generate` builds it: gathered names, sorted, joined. */
  method RenderGenericsHeader(gs: set<TealType>) returns (header: string)
    ensures header == GenericsHeader(gs)
  {
    header := "";
    if gs != {} {
      var names := CollectGenericNames(gs);
      SortPermutationInvariant(names, GenericNames(gs));
      var sorted := Sort(names);
      header := "<" + Join(sorted, ",") + ">";
    }
  }

  /** The layout of a signature line: `{doc}{metamethod }{name}: function{header}({params}):({results})`. */
  function SignatureLine(doc: string, isMetaMethod: bool, name: string, header: string,
                         params: string, results: string): (r: string)
    ensures doc <= r
    ensures |r| > |results| && r[|r| - |results| - 1..] == results + ")"
  {
    doc + MetaPrefix(isMetaMethod) + name + ": function" + header + "(" + params + "):(" + results + ")"
  }

  /** The signature line of `f` once its name has been decoded to `name`. */
  ghost function Rendered(f: ExportedFunction, selfType: Option<string>,
                          documentation: map<seq<Byte>, string>, name: string): (r: string)
    ensures DocPrefix(documentation, f.name) <= r
    ensures |r| > |ReturnList(f.returnTypes)|
    ensures r[|r| - |ReturnList(f.returnTypes)| - 1..] == ReturnList(f.returnTypes) + ")"
  {
    SignatureLine(DocPrefix(documentation, f.name), f.isMetaMethod, name, GenericsHeader(f.generics),
                  ParamList(selfType, f.params), ReturnList(f.returnTypes))
  }

  /**
   * `ExportedFunction::generate`: fails exactly when the name is not UTF-8,
   * and otherwise renders the signature line; the generic names are gathered
   * from the set in whatever order it yields them and then sorted.
   */
  method Generate(f: ExportedFunction, selfType: Option<string>, documentation: map<seq<Byte>, string>)
    returns (r: Result<string, FromUtf8Error>)
    ensures r.Success? <==> IsUtf8(f.name)
    ensures r.Failure? ==> r.error.bytes == f.name && r.error.validUpTo < |f.name|
    ensures r.Failure? ==> IsUtf8(f.name[..r.error.validUpTo])
    ensures r.Failure? ==> forall m :: r.error.validUpTo < m <= |f.name| ==> !IsUtf8(f.name[..m])
    ensures r.Success? ==> Decode(f.name).Success? && Encode(Decode(f.name).value) == f.name
    ensures r.Success? ==> r.value == Rendered(f, selfType, documentation, Decode(f.name).value)
  {
    var params := ParamList(selfType, f.params);
    var results := ReturnList(f.returnTypes);
    var doc := DocPrefix(documentation, f.name);
    DecodeSucceedsIff(f.name);
    var decoded := Decode(f.name);
    if decoded.Failure? {
      ValidUpToIsValid(f.name);
      DecodeSucceedsIff(f.name[..decoded.error.validUpTo]);
      forall m | decoded.error.validUpTo < m <= |f.name|
        ensures !IsUtf8(f.name[..m])
      {
        ValidUpToIsMaximal(f.name, m);
        DecodeSucceedsIff(f.name[..m]);
      }
      return Failure(decoded.error);
    }
    EncodeDecode(f.name);
    var name := decoded.value;
    var header := RenderGenericsHeader(f.generics);
    r := Success(SignatureLine(doc, f.isMetaMethod, name, header, params, results));
  }

  // ---------------------------------------------------------------------------
  // Properties of the rendered signature

  /**
   * When no generic name holds a comma, the names can be read back from the
   * header: it is "<", the sorted names separated by ",", and ">".
   */
  lemma GenericsHeaderReadBack(gs: set<TealType>)
    requires gs != {}
    requires forall t :: t in gs ==> ',' !in t.name
    ensures var h := GenericsHeader(gs);
            |h| >= 2 && h[0] == '<' && h[|h| - 1] == '>' && Split(h[1..|h| - 1], ',') == SortedGenericNames(gs)
  {
    var names := SortedGenericNames(gs);
    assert names != [] by { assert |names| == |gs| && |gs| > 0; }
    forall k | 0 <= k < |names| ensures ',' !in names[k] {
      assert names[k] in names;
    }
    SplitJoin(names, ',');
    var h := GenericsHeader(gs);
    assert h == "<" + Join(names, [',']) + ">";
    assert h[1..|h| - 1] == Join(names, [',']);
  }

  /** Names of a list of the set's members, each listed once, hold the same names as the set. */
  lemma {:induction false} ListedNamesBag(gs: set<TealType>, order: seq<TealType>)
    requires forall t :: t in gs <==> t in order
    requires forall i, j :: 0 <= i < j < |order| ==> order[i] != order[j]
    ensures multiset(Names(order)) == multiset(GenericNames(gs))
    decreases |order|
  {
    if order == [] {
      assert gs == {} by {
        forall t ensures t !in gs { assert t !in order; }
      }
    } else {
      var t := order[0];
      var rest := order[1..];
      assert t !in rest by {
        forall j | 0 <= j < |rest| ensures rest[j] != t { assert rest[j] == order[j + 1]; }
      }
      forall u ensures u in gs - {t} <==> u in rest {
        assert u in order <==> u == t || u in rest by { assert order == [t] + rest; }
      }
      forall i, j | 0 <= i < j < |rest| ensures rest[i] != rest[j] {
        assert rest[i] == order[i + 1] && rest[j] == order[j + 1];
      }
      ListedNamesBag(gs - {t}, rest);
      GenericNamesRemove(gs, t);
      assert Names(order) == [t.name] + Names(rest);
    }
  }

  /**
   * Whatever order the set of generics is iterated in, sorting the names
   * gives the list the header shows: the output does not depend on it.
   */
  lemma HeaderIgnoresIterationOrder(gs: set<TealType>, order: seq<TealType>)
    requires forall t :: t in gs <==> t in order
    requires forall i, j :: 0 <= i < j < |order| ==> order[i] != order[j]
    ensures Sort(Names(order)) == SortedGenericNames(gs)
  {
    ListedNamesBag(gs, order);
    SortPermutationInvariant(Names(order), GenericNames(gs));
  }

  /** A receiver type comes first in the parameter list, before the parameters. */
  lemma ReceiverComesFirst(selfType: string, params: seq<TealType>)
    ensures ParamList(Some(selfType), params)
            == if params == [] then selfType else selfType + ", " + ParamList(None, params)
  {
    var all := [selfType] + Names(params);
    assert all[0] == selfType && all[1..] == Names(params);
    assert [] + Names(params) == Names(params);
  }

  /**
   * Without a documentation entry there is no documentation block; with one
   * free of carriage returns, the block splits into the entry's lines, each
   * behind "--".
   */
  lemma DocBlockLines(documentation: map<seq<Byte>, string>, name: seq<Byte>)
    ensures name !in documentation ==> DocPrefix(documentation, name) == ""
    ensures name in documentation && '\r' !in documentation[name] ==>
              Lines(DocPrefix(documentation, name)) == Commented(Lines(documentation[name]))
  {
    if name in documentation && '\r' !in documentation[name] {
      var ls := Lines(documentation[name]);
      LinesOmit(documentation[name], '\r');
      var cs := Commented(ls);
      forall k | 0 <= k < |cs| ensures '\n' !in cs[k] && !EndsWith(cs[k], '\r') {
        assert cs[k] == "--" + ls[k];
        assert forall c :: c in cs[k] ==> c == '-' || c in ls[k];
      }
      LinesTerminated(cs);
    }
  }

  /** A meta-method's line has "metamethod " right after the documentation and is otherwise the same. */
  lemma MetaMethodMarker(doc: string, name: string, header: string, params: string, results: string)
    ensures var plain := SignatureLine(doc, false, name, header, params, results);
            |plain| >= |doc| &&
            SignatureLine(doc, true, name, header, params, results) == doc + "metamethod " + plain[|doc|..]
  {
    var tail := name + ": function" + header + "(" + params + "):(" + results + ")";
    var plain := SignatureLine(doc, false, name, header, params, results);
    SignatureAfterPrefix(doc, false, name, header, params, results);
    SignatureAfterPrefix(doc, true, name, header, params, results);
    assert plain == doc + tail;
    assert plain[|doc|..] == tail;
  }

  /** The line is the documentation, the meta prefix, and the rest of the signature. */
  lemma SignatureAfterPrefix(doc: string, isMetaMethod: bool, name: string, header: string,
                             params: string, results: string)
    ensures SignatureLine(doc, isMetaMethod, name, header, params, results)
            == doc + MetaPrefix(isMetaMethod) + (name + ": function" + header + "(" + params + "):(" + results + ")")
  {
    var tail := name + ": function" + header + "(" + params + "):(" + results + ")";
    var m := MetaPrefix(isMetaMethod);
    assert doc + m + name + ": function" + header + "(" + params + "):(" + results + ")" == doc + m + tail;
  }

  /** The parameter and return lists of `concat`. */
  lemma ConcatLists(str: TealType)
    requires str.name == "string"
    ensures ParamList(None, [str, str]) == "string, string"
    ensures ReturnList([str]) == "string"
  {
    SingleTypeLists(str);
    var ns := Names([str, str]);
    assert ns == ["string", "string"] && [] + ns == ns;
    JoinPair("string", "string", ", ");
    assert "string" + ", " + "string" == "string, string";
  }

  /** `concat`, taking two strings and returning one, with no documentation. */
  lemma ConcatExample(name: seq<Byte>)
    ensures var str := TealType("string", Builtin, Absent);
            var f := ExportedFunction(name, {}, [str, str], [str], false);
            Rendered(f, None, map[], "concat") == "concat: function(string, string):(string)"
  {
    var str := TealType("string", Builtin, Absent);
    var f := ExportedFunction(name, {}, [str, str], [str], false);
    ConcatLists(str);
    ConcatLine();
  }

  /** The pieces of the `concat` line, concatenated. */
  lemma ConcatLine()
    ensures SignatureLine("", false, "concat", "", "string, string", "string")
            == "concat: function(string, string):(string)"
  {
    assert MetaPrefix(false) == "";
    assert "" + "" + "concat" + ": function" + "" + "(" + "string, string" + "):(" + "string" + ")"
        == "concat: function(string, string):(string)";
  }

  /** Types that are not generic and have no generics list contribute no generics. */
  lemma {:induction false} NoGenericsCollected(ts: seq<TealType>)
    requires forall k :: 0 <= k < |ts| ==> !ts[k].isGeneric && ts[k].generics.Absent?
    ensures AllGenerics(ts) == {}
  {
    if ts != [] {
      NoGenericsCollected(ts[1..]);
    }
  }

  /** The `concat` function as `new` builds it renders as its documented signature. */
  lemma ConcatRendered(f: ExportedFunction)
    requires var str := TealType("string", Builtin, Absent);
             f == ExportedFunction(Encode("concat"), {}, [str, str], [str], false)
    ensures IsUtf8(f.name) && Decode(f.name) == Success("concat")
    ensures Rendered(f, None, map[], Decode(f.name).value) == "concat: function(string, string):(string)"
  {
    assert Encode("concat") == f.name;
    DecodeEncode("concat");
    ConcatExample(f.name);
  }

  /**
   * The documented use of `new`: `concat`, taking two strings and returning a
   * string, built from its name's bytes and then rendered without a receiver
   * or documentation.
   */
  method ConcatEndToEnd() returns (f: ExportedFunction, r: Result<string, FromUtf8Error>)
    ensures f.name == Encode("concat") && f.generics == {}
    ensures r == Success("concat: function(string, string):(string)")
  {
    var str := TealType("string", Builtin, Absent);
    f := New(Encode("concat"), false, [str, str], [str]);
    NoGenericsCollected([str, str]);
    NoGenericsCollected([str]);
    assert f == ExportedFunction(Encode("concat"), {}, [str, str], [str], false);
    ConcatRendered(f);
    r := Generate(f, None, map[]);
  }

  /**
   * Two generics with the same name whose generics lists differ, even only in
   * the kind of a type inside them, are two members and are both listed.
   */
  lemma SameNameGenericsListedTwice(t1: TealType, t2: TealType)
    requires t1.name == t2.name && t1 != t2
    ensures GenericsHeader({t1, t2}) == "<" + t1.name + "," + t1.name + ">"
  {
    SameNameSortedNames(t1, t2);
    var n := t1.name;
    assert [n, n][1..] == [n];
    assert Join([n, n], ",") == n + "," + n;
    assert "<" + (n + "," + n) + ">" == "<" + n + "," + n + ">";
  }

  /** Two distinct generics with the same name give that name twice. */
  lemma SameNameSortedNames(t1: TealType, t2: TealType)
    requires t1.name == t2.name && t1 != t2
    ensures SortedGenericNames({t1, t2}) == [t1.name, t1.name]
  {
    var ns := SortedGenericNames({t1, t2});
    assert |{t1, t2}| == 2;
    assert ns[0] in ns && ns[1] in ns;
  }

  /** `T` over a builtin `U` and `T` over an external `U` are distinct generics: the header reads `<T,T>`. */
  lemma KindDistinguishesGenerics()
    ensures var t1 := TealType("T", Generic, Present([TealType("U", Builtin, Absent)]));
            var t2 := TealType("T", Generic, Present([TealType("U", External, Absent)]));
            t1 != t2 && GenericsHeader({t1, t2}) == "<T,T>"
  {
    var t1 := TealType("T", Generic, Present([TealType("U", Builtin, Absent)]));
    var t2 := TealType("T", Generic, Present([TealType("U", External, Absent)]));
    assert t1.generics.types[0].typeKind != t2.generics.types[0].typeKind;
    SameNameGenericsListedTwice(t1, t2);
    assert "<" + "T" + "," + "T" + ">" == "<T,T>";
  }

  /** A single generic is listed alone between angle brackets. */
  lemma GenericsHeaderSingleton(t: TealType)
    ensures GenericsHeader({t}) == "<" + t.name + ">"
  {
    var ns := SortedGenericNames({t});
    assert |ns| == 1 && ns[0] in ns;
    assert ns == [t.name];
  }

  /** A generic `T` used as a parameter and as a return is collected once. */
  lemma GenericCollectedOnce(t: TealType)
    requires t.isGeneric && t.generics.Absent?
    ensures AllGenerics([t] + [t]) == {t}
  {
    assert AllGenerics([t]) == {t} by {
      assert Contribution(t) == {t};
      assert AllGenerics([t][1..]) == {};
    }
    AllGenericsAppend([t], [t]);
  }

  /** A single type renders as its name, in the parameter list as in the return list. */
  lemma SingleTypeLists(t: TealType)
    ensures ParamList(None, [t]) == t.name && ReturnList([t]) == t.name
  {
    assert Names([t]) == [t.name];
    assert [] + Names([t]) == [t.name];
  }

  /**
   * An undocumented function whose one generic is `t`, taking and returning
   * `t`, names `t` once in its header and once on each side.
   */
  lemma SingleGenericSignature(name: seq<Byte>, t: TealType, n: string)
    ensures Rendered(ExportedFunction(name, {t}, [t], [t], false), None, map[], n)
            == n + ": function<" + t.name + ">(" + t.name + "):(" + t.name + ")"
  {
    var f := ExportedFunction(name, {t}, [t], [t], false);
    GenericsHeaderSingleton(t);
    SingleTypeLists(t);
    SingleGenericLine(n, t.name);
  }

  lemma SingleGenericLine(n: string, tn: string)
    ensures SignatureLine("", false, n, "<" + tn + ">", tn, tn) == n + ": function<" + tn + ">(" + tn + "):(" + tn + ")"
  {
  }

  /** The generic `T`, taken and returned by `f`, is collected once and listed once: `f: function<T>(T):(T)`. */
  lemma GenericExample(name: seq<Byte>)
    ensures var t := TealType("T", Generic, Absent);
            AllGenerics([t] + [t]) == {t} &&
            Rendered(ExportedFunction(name, {t}, [t], [t], false), None, map[], "f") == "f: function<T>(T):(T)"
  {
    var t := TealType("T", Generic, Absent);
    GenericCollectedOnce(t);
    SingleGenericSignature(name, t, "f");
    GenericLine();
  }

  /** The pieces of the one-generic line for `f` and `T`, concatenated. */
  lemma GenericLine()
    ensures "f" + ": function<" + "T" + ">(" + "T" + "):(" + "T" + ")" == "f: function<T>(T):(T)"
  {
  }
}
