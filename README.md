# tealr: function signatures and named parameters

tealr writes Teal definition files for functions that Rust exposes to Lua.
This project models two pieces of it.

**`ExportedFunction`** (`tealr/src/exported_function.rs`). It records one exposed
function: its name as bytes, its parameter and return types, whether it is a
meta-method, and the set of generic types it mentions.

- `new` collects that set with `get_all_generics`. It walks the parameters, then
  the returns. For each type it recurses into the type's own generics list and
  keeps the type itself when its kind is generic.
- `generate` renders one Teal signature line:
  `{doc}{metamethod }{name}: function{<generics>}({params}):({returns})`.
  - The documentation block is each line of the function's documentation entry, as `--line\n`.
  - The generic names are sorted and joined by `,`.
  - The receiver type, when there is one, comes first among the parameters.
  - Rendering fails when the name is not UTF-8.

**`mlua_create_named_parameters!`** (`src/mlu/named_parameters.rs`). This macro builds
a parameter type with named fields.

- Its `get_type_parts` spells the type as `f1 : T1 , ... , fn : Tn`.
- Its `from_lua_multi` hands the Lua values to the fields by position. A field gets nil once the values run out.

Modules:

- `Wrappers`: `Option` and `Result`.
- `TealTypes`: a type as generics collection and rendering see it. That is its name, its kind (builtin, external or generic), and its optional generics list. Two types are equal, and so one set member, exactly when all three agree.
- `Utf8`: `String::from_utf8`, as a decoder following the UTF-8 grammar of RFC 3629 section 4. It is proved inverse to encoding.
- `Text`: `join` and `str::lines`, each with its inverse.
- `StringOrder`: the order `sort` puts names in, and the sorted permutation of a list.
- `ExportedFunctions`: generics collection, `new` and `generate`.
- `NamedParameters`: the two macro-generated functions.

Generics collection and rendering are specified by ghost functions:

- `AllGenerics` for the collected set.
- `GenericsHeader` for the header.
- `Rendered` for the whole line.

The methods `GetAllGenerics`, `New`, `Generate`, `GetTypeParts` and `FromLuaMulti` follow the source step by step. The loops of `get_all_generics`, `get_type_parts` and `from_lua_multi` are `while` loops here. In `generate`, gathering the generic names from the set is the loop `CollectGenericNames`. The rest of `generate`, like `new`, is straight-line code. Each method is proved against the specifications above.

Two points where the model follows the code rather than what one might expect:

- The code recurses only into a type's `generics` list. It has no check against cyclic types. A Dafny datatype value is always finite, so collection always terminates.
- The code prints `):(` with no space before the return list.

## Model

| member | source | states |
|---|---|---|
| `ExportedFunctions.AllGenerics` | tealr/src/exported_function.rs:12-23 | The collection from a list is the union of each type's contribution. Everything in it has a generic kind. |
| `ExportedFunctions.Contribution` | tealr/src/exported_function.rs:15-20 | One type contributes what is collected from its generics list (nothing when absent) plus itself when its kind is generic. The type is in its own contribution exactly when its kind is generic. Everything contributed has a generic kind. |
| `ExportedFunctions.GetAllGenerics` | tealr/src/exported_function.rs:12-23 | The loop, including its recursion into each type's generics list, yields exactly `AllGenerics` of the input. |
| `ExportedFunctions.AllGenericsCharacterization` | tealr/src/exported_function.rs:12-23 | A type is collected if and only if its kind is generic and it can be reached from the input through generics lists, at any depth. |
| `ExportedFunctions.CollectedIsGenericAndReachable` | tealr/src/exported_function.rs:14-20 | Every collected type has a generic kind and is reachable from the input. |
| `ExportedFunctions.ReachableGenericIsCollected` | tealr/src/exported_function.rs:14-20 | Every generic-kind type at the end of a path through generics lists is collected. |
| `ExportedFunctions.NoGenericsListContributesNothing` | tealr/src/exported_function.rs:16 | A type without a generics list contributes nothing from below. It contributes only itself, and only when its kind is generic. |
| `ExportedFunctions.AllGenericsAppend` | tealr/src/exported_function.rs:52-57 | Collecting from parameters chained with returns gives the union of the two collections. |
| `ExportedFunctions.New` | tealr/src/exported_function.rs:46-65 | It stores name, meta-method flag, parameters and returns unchanged. Its generics are the collection from the parameters and the returns, that is, exactly the reachable generic-kind types of either. |
| `ExportedFunctions.Generate` | tealr/src/exported_function.rs:66-116 | It fails exactly when the name is not UTF-8. The error carries the bytes and the length of the longest valid prefix: that prefix is UTF-8 and no longer prefix is. Otherwise the name decodes and re-encodes to the same bytes, and the result is the `Rendered` line for the decoded name. |
| `ExportedFunctions.ParamList` | tealr/src/exported_function.rs:71-76 | The receiver's type, when given, followed by each parameter's name, joined by `, `. The receiver's type is a prefix of the list. Without a receiver, no parameters give the empty list and one parameter gives its name alone. |
| `ExportedFunctions.ReturnList` | tealr/src/exported_function.rs:78-83 | Each return type's name joined by `, `. No returns give the empty list and one return gives its name alone. |
| `ExportedFunctions.Commented` | tealr/src/exported_function.rs:86 | One comment line per line, each `--` followed by exactly that line. |
| `ExportedFunctions.DocPrefix` | tealr/src/exported_function.rs:84-87 | The documentation block: nothing when the name has no entry, else each line of the entry as `--line` plus a line feed. It is empty or ends with a line feed, so the signature starts on a line of its own. |
| `ExportedFunctions.MetaPrefix` | tealr/src/exported_function.rs:94-98 | `metamethod ` for a meta-method and nothing otherwise. |
| `ExportedFunctions.SignatureLine` | tealr/src/exported_function.rs:91-115 | The format `{doc}{metamethod }{name}: function{header}({params}):({returns})`. The line starts with the documentation block and ends with the return list closed by `)`. |
| `ExportedFunctions.Rendered` | tealr/src/exported_function.rs:91-115 | The line `generate` produces for a function whose name decodes to `name`. It starts with the function's documentation block and ends with its return list closed by `)`. |
| `ExportedFunctions.CollectGenericNames` | tealr/src/exported_function.rs:104-108 | Gathering one name per generic, in whatever order the set is walked, yields the same names with the same multiplicities as the specification's listing. |
| `ExportedFunctions.RenderGenericsHeader` | tealr/src/exported_function.rs:100-112 | The header built by gathering, sorting and joining the names is `GenericsHeader`, whatever order the set is walked in. |
| `ExportedFunctions.GenericNames` | tealr/src/exported_function.rs:104-107 | The names of the set's members, listed in some order, one per member: as many names as members. |
| `ExportedFunctions.SortedGenericNames` | tealr/src/exported_function.rs:104-110 | The header's names are sorted, one per generic: they hold the names of `GenericNames` with the same multiplicities. Each generic's name is among them, and each of them is some generic's name. |
| `ExportedFunctions.GenericsHeader` | tealr/src/exported_function.rs:100-112 | The header is empty if and only if the function has no generics. Otherwise it is `<`, the sorted names joined by `,`, and `>`. |
| `ExportedFunctions.GenericsHeaderSingleton` | tealr/src/exported_function.rs:100-112 | One generic renders as `<name>`. |
| `ExportedFunctions.GenericsHeaderReadBack` | tealr/src/exported_function.rs:103-111 | When no generic name contains a comma, the header is `<` ... `>`. Splitting its inside at `,` gives back the sorted names. |
| `ExportedFunctions.ListedNamesBag` | tealr/src/exported_function.rs:104-108 | Any duplicate-free listing of the set gives the same names, with the same multiplicities, as the specification's listing. |
| `ExportedFunctions.HeaderIgnoresIterationOrder` | tealr/src/exported_function.rs:104-110 | Sorting the names of any duplicate-free listing of the set gives the header's name list. The output does not depend on hash-set iteration order. |
| `ExportedFunctions.ReceiverComesFirst` | tealr/src/exported_function.rs:71-76 | With a receiver type, the parameter list is that type alone, or that type, `, ` and the plain parameter list. |
| `ExportedFunctions.DocBlockLines` | tealr/src/exported_function.rs:84-87 | Without a documentation entry there is no documentation block. With an entry free of carriage returns, the block's lines are the entry's lines, each prefixed with `--`. |
| `ExportedFunctions.MetaMethodMarker` | tealr/src/exported_function.rs:91-98 | A meta-method's line is the plain line with `metamethod ` inserted right after the documentation block. |
| `ExportedFunctions.ConcatLists` | tealr/src/exported_function.rs:71-83 | Two `string` parameters render as `string, string`, and one `string` return renders as `string`. |
| `ExportedFunctions.ConcatExample` | tealr/src/exported_function.rs:41-44 | `concat`, with two `string` parameters and a `string` return and no documentation, renders as `concat: function(string, string):(string)`. |
| `ExportedFunctions.NoGenericsCollected` | tealr/src/exported_function.rs:14-20 | Types that are neither generic nor have a generics list contribute no generics. |
| `ExportedFunctions.ConcatRendered` | tealr/src/exported_function.rs:41-44 | The `concat` function that `new` builds has a UTF-8 name decoding to `concat`, and it renders as `concat: function(string, string):(string)`. |
| `ExportedFunctions.ConcatEndToEnd` | tealr/src/exported_function.rs:41-44 | `new` applied to the bytes of `concat`, two `string` parameters and a `string` return collects no generics. `generate` then returns `concat: function(string, string):(string)`. |
| `ExportedFunctions.SameNameGenericsListedTwice` | tealr/src/exported_function.rs:100-112 | Two distinct generics with the same name are both listed, so the name appears twice in the header. |
| `ExportedFunctions.KindDistinguishesGenerics` | tealr/src/exported_function.rs:18-19 | Two generics `T` whose generics lists differ only in a nested type's kind (builtin or external) are distinct members. The header reads `<T,T>`. |
| `ExportedFunctions.SingleTypeLists` | tealr/src/exported_function.rs:71-83 | One parameter, or one return, renders as that type's name alone. |
| `ExportedFunctions.GenericCollectedOnce` | tealr/src/exported_function.rs:52-57 | A generic type with no generics list, used as a parameter and again as a return, is collected once. |
| `ExportedFunctions.SingleGenericSignature` | tealr/src/exported_function.rs:91-115 | An undocumented function whose one generic `t` is both parameter and return renders as `name: function<t>(t):(t)`. |
| `ExportedFunctions.GenericExample` | tealr/src/exported_function.rs:52-57 | A generic `T` used as parameter and as return is collected once. The function renders as `f: function<T>(T):(T)`. |
| `Utf8.EncodeChar` | tealr/src/exported_function.rs:89 | A character encodes to 1 to 4 bytes. It is a single byte exactly for ASCII, and every byte after the first is a continuation byte. |
| `Utf8.IsUtf8` | tealr/src/exported_function.rs:89 | The byte sequences `String::from_utf8` accepts: those that are the encoding of some text. |
| `Utf8.DecodeFirst` | tealr/src/exported_function.rs:89 | Accepts one well-formed UTF-8 sequence of 1 to 4 bytes at the front (no overlong forms, surrogates or values above U+10FFFF) and says how many bytes it used, at most the length of the input. |
| `Utf8.Decode` | tealr/src/exported_function.rs:89 | On failure the error holds the input and a valid-up-to position inside it. |
| `Utf8.DecodeStep` | tealr/src/exported_function.rs:89 | A successful decoding is the first character decoded, followed by the successful decoding of the bytes after it. |
| `Utf8.DecodeEncode` | tealr/src/exported_function.rs:89 | Decoding the encoding of any string gives that string back. |
| `Utf8.EncodeDecode` | tealr/src/exported_function.rs:89 | Bytes that decode are the encoding of what they decode to. |
| `Utf8.DecodeSucceedsIff` | tealr/src/exported_function.rs:89 | Decoding succeeds exactly on the bytes that are the encoding of some string. |
| `Utf8.ValidUpToIsValid` | tealr/src/exported_function.rs:89 | On failure, the prefix up to the reported position decodes. |
| `Utf8.ValidUpToIsMaximal` | tealr/src/exported_function.rs:89 | On failure, every prefix longer than the reported position fails to decode, so the position is that of the longest valid prefix. |
| `Utf8.DecodeFirstExtend` | tealr/src/exported_function.rs:89 | A character accepted at the front of a prefix is accepted, the same, at the front of the whole byte sequence. |
| `Text.Join` | tealr/src/exported_function.rs:76 | `join`: the elements in order, with the separator between consecutive ones. It is empty for no elements and the element itself for one. `SplitJoin` and `JoinSplit` show it is the inverse of splitting. |
| `Text.JoinHead` | tealr/src/exported_function.rs:71-76 | A join starts with its first element. |
| `Text.SplitJoin` | tealr/src/exported_function.rs:110 | Joining names that hold no separator character, then splitting at it, gives the names back. |
| `Text.JoinSplit` | tealr/src/exported_function.rs:110 | Splitting at a character and joining with it gives the text back. |
| `Text.JoinAppend` | tealr/src/exported_function.rs:71-76 | Joining a concatenation of two non-empty lists puts exactly one separator between the two joins. |
| `Text.Lines` | tealr/src/exported_function.rs:86 | No line holds a line feed. |
| `Text.LinesOmit` | tealr/src/exported_function.rs:86 | A character absent from the text is absent from every line. |
| `Text.LinesStep` | tealr/src/exported_function.rs:86 | Without carriage returns, the first line of text that holds a line feed is everything before that line feed. The remaining lines are those of the rest. |
| `Text.Terminated` | tealr/src/exported_function.rs:86 | Each line followed by a line feed, concatenated. It is empty exactly when there are no lines, and otherwise ends with a line feed. |
| `Text.TerminatedLines` | tealr/src/exported_function.rs:86 | For text without carriage returns, its lines, each followed by a line feed, give the text back, with a line feed added when the last one was missing. |
| `Text.LinesTerminated` | tealr/src/exported_function.rs:86 | Lines without line feeds and without a trailing carriage return are read back by `lines` after being terminated and concatenated. |
| `StringOrder.LessEq` | tealr/src/exported_function.rs:109 | The order of `str`: lexicographic by character, a prefix before any extension. `LessEqTotal`, `LessEqAntisymmetric` and `LessEqTransitive` show it is a total order. |
| `StringOrder.Sort` | tealr/src/exported_function.rs:109 | The result is sorted and is a permutation of the input. |
| `StringOrder.SortedUnique` | tealr/src/exported_function.rs:109 | Two sorted lists with the same elements are equal. |
| `StringOrder.SortPermutationInvariant` | tealr/src/exported_function.rs:109 | Lists with the same elements sort to the same list. |
| `StringOrder.LessEqTotal` | tealr/src/exported_function.rs:109 | Any two names are comparable. |
| `StringOrder.LessEqAntisymmetric` | tealr/src/exported_function.rs:109 | Names that are each at or below the other are equal. |
| `StringOrder.LessEqTransitive` | tealr/src/exported_function.rs:109 | The order is transitive. |
| `TealTypes.Names` | tealr/src/exported_function.rs:78-83 | One name per type, in order: the name of the k-th type is at position k. |
| `NamedParameters.FieldGroup` | src/mlu/named_parameters.rs:35-38 | A field contributes its type's parts plus three more: its name, ` : ` and ` , `. |
| `NamedParameters.Groups` | src/mlu/named_parameters.rs:34-39 | The parts the repeated block pushes before the removal: each field's group, in declaration order. `GetTypeParts` is proved against it. |
| `NamedParameters.PartCount` | src/mlu/named_parameters.rs:34-39 | How many parts the groups hold: 3 plus the number of the field's type parts, summed over the fields, so at least 3 per field. |
| `NamedParameters.GetTypeParts` | src/mlu/named_parameters.rs:32-42 | The result followed by ` , ` is every field's group in declaration order. Each field's name, then ` : `, starts its group. Its length is the sum of (3 + the field's type parts) over the fields, minus one. At least one field is required. |
| `NamedParameters.GroupsLength` | src/mlu/named_parameters.rs:34-39 | The groups hold as many parts as the fields' counts add up to. |
| `NamedParameters.GroupsPrefix` | src/mlu/named_parameters.rs:34-39 | The groups of the first k fields are a prefix of the groups of all fields. |
| `NamedParameters.FieldGroupAt` | src/mlu/named_parameters.rs:34-39 | Field k's parts start at the sum of the earlier fields' counts. They are its name, ` : `, its type's parts and ` , `, in that order. |
| `NamedParameters.LastPart` | src/mlu/named_parameters.rs:40 | Only the trailing separator is removed. The last part left is the last field's last type part, or ` : ` when that type has no parts. |
| `NamedParameters.ExampleTypeParts` | src/mlu/named_parameters.rs:7-11 | For `Example with field_1 : String, field_2 : i64` the parts are `field_1`, ` : `, the parts of `String`, ` , `, `field_2`, ` : ` and the parts of `i64`, with no trailing separator. |
| `NamedParameters.Arg` | src/mlu/named_parameters.rs:51-53 | Past the end of the supplied values a field receives nil. |
| `NamedParameters.FromLuaMulti` | src/mlu/named_parameters.rs:44-57 | It succeeds exactly when every field's conversion of its positional value (nil once the values run out) succeeds. It then holds those conversions in field order. Otherwise it returns the error of the first field whose conversion fails. Surplus values are not used. |

## Left out

- `TealMultiValue::get_types` and `Direction`: `New` takes the parameter and return types it would produce as arguments.
- The Lua state and the `FromLua` conversion of each field's type: `FromLuaMulti` takes them as the function `fromLua(field index, value)`. A Lua value is reduced to nil or an opaque handle.
- `TealType` keeps the name, the kind and the generics list. `TealType` is re-exported from `teal_multivalue.rs` (tealr/src/lib.rs:19), which is not part of this model, and neither is the definition of `KindOfType`. Any other field they have is not modelled.
- `HashSet` hashing, and the order a hash set yields its members, are not modelled. The model works with a mathematical set, and any walk order is allowed. `HeaderIgnoresIterationOrder` proves that the order cannot change the output.
- `Utf8.Decode`: the `error_len` part of Rust's `Utf8Error` is not modelled. Only the bytes and `valid_up_to` are.
- `Text.Lines` follows current `str::lines`. A lone `\r` at the very end of the text is kept. Older Rust releases stripped it.
- `StringOrder.Sort` models the result of `Vec::sort`, which is the unique sorted permutation, and not its algorithm.
- `NamedParameters.GetTypeParts`: a call with zero fields is a precondition violation. The source panics in that case, on the `len() - 1` underflow or the out-of-range `remove`.
- `NamedParameters`: the definition of `NamePart` and of `TypeName::get_type_parts` for each field type (`TypeName` is re-exported from `type_representation.rs`, tealr/src/lib.rs:21) are not part of this model. A field's type parts are given as a list.
- Macro expansion itself (`macro_rules!`, `stringify!`, the generated struct) is not modelled. A field is its name and its type's parts.
- Serde serialisation of `ExportedFunction`, the re-exports in `tealr/src/lib.rs`, and the example usage in `tests/rlua/type_picker.rs` are not modelled.
