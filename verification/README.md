# easytmpl, modelled in Dafny

easytmpl is a small command-line generator around Go's `text/template`. It is
run as `easytmpl <template-file> [key=value ...]`.

- **Suggestion mode.** With no `key=value` parameters, it walks the parsed
  template, collects every field reached through its top-level actions
  (`{{.Name}}`; fields inside `if`, `range`, `with` or `template` are not
  reached, and a dotted field aborts the run), and prints a ready-to-fill command line: `<program> <template-file> Name= Age=`.
- **Render mode.** With parameters, it builds a map from the parameters and
  renders the template against that map into a file named `gen_` followed by
  the base name of the template file, in the current working directory.

This project models the logic of `main.go` that does not depend on the
template engine:

- `makeValues` (module `Values`): parses the parameters into a map, rejecting
  a parameter without `=` and a key given twice.
- `Set` (module `Sets`): a class over a `set<string>` with `Add`, `Find` and
  the constructor `NewSet`.
- `Fields` and `extractField` (module `Extraction`): a class holding the set
  and the ordered list of names. `ExtractField` is a recursive method with one
  loop per node kind with a list of children, as in the Go code.
- The line-building part of `createCommand` (module `Command`): a method with
  the loop that turns each name into `name=`, joined with the program name and
  the file name.
- `Strings`: `strings.Split` and `strings.Join` for a one-character
  separator, with both round trips proved.
- `Parse`: the node kinds of `text/template/parse` that the walk
  distinguishes, as a datatype. Every other kind of node is `Other`.

Each method is proved against a specification function:

- `MakeValues` against `ValuesFrom`.
- `ExtractField` against `Extract` and `ExtractEach`.
- `CreateCommand` against `SuggestionLine` and `FirstOccurrences`.

The lemmas relate those functions to independent descriptions:

- well-formed parameters and their keys and values;
- the field references of a tree in depth-first, left-to-right order
  (`Occurrences`);
- deduplication by first occurrence (`DedupFrom`, `FirstIndex`).

The Go `panic("multiple dots is not implemented")` becomes the status
`Panicked(ident)`. The path `ident` of the dotted field is the model's
addition; the Go panic value is the constant message. `ExtractField` returns
the status and every enclosing loop stops at once, which is how the panic
unwinds. The names collected before the panic stay in place.

Two consequences of the code are worth stating:

- A parameter's value is `pair[1]` of `strings.Split(param, "=")`. So the
  value never contains `=`, and anything after a second `=` is lost
  (`SecondEqualsDropped`).
- The printed line is `strings.Join(words, " ")`. So it has no trailing
  space after the last `name=` (`GreetingLine`).

## Model

| member | source | states |
|---|---|---|
| `Strings.Split` | main.go:58 | `strings.Split` with a one-character separator gives at least one piece; it gives exactly one piece iff the separator does not occur; no piece contains the separator |
| `Strings.Join` | main.go:83 | `strings.Join`: no parts give the empty string; otherwise the result starts with the first part, and with two or more parts the separator comes right after it |
| `Strings.JoinSplit` | main.go:58 | joining the pieces of a split with the separator gives back the original string |
| `Strings.SplitJoin` | main.go:83 | splitting a join of at least one separator-free part gives back exactly those parts |
| `Values.Message` | main.go:60-65 | the missing-`=` error reads "= must be included"; the duplicate-key error reads "define duplicate '…'" with the key between the quotes |
| `Values.MakeValues` | main.go:55-70 | the loop, building the map in place, returns what the specification `ValuesFrom` gives for the parameters from an empty map |
| `Values.KeyValueShape` | main.go:58-63 | for a parameter with `=`: the key is the text before the first `=`, then comes `=`, then the value, which is followed by the end or by a second `=`; neither key nor value contains `=` |
| `Values.SecondEqualsDropped` | main.go:58-63 | for `k=v=rest` with no `=` in `k` or `v`, the key is `k` and the value is `v`: the text after the second `=` is lost |
| `Values.ValuesFromFresh` | main.go:57-69 | if every remaining parameter has `=`, and their keys are distinct and not in the map built so far, the loop succeeds; the result keeps the old entries and adds key ↦ value for every parameter, and no other keys |
| `Values.ValuesFromNotFresh` | main.go:57-66 | in every other case the loop fails |
| `Values.ValuesFromMissingEquals` | main.go:58-61 | if all parameters before index i are fresh and well formed and parameter i has no `=`, the result is the missing-`=` error, with no map |
| `Values.ValuesFromDuplicateKey` | main.go:62-66 | if all parameters before index i are fresh and well formed and parameter i has `=` and repeats a key already taken, the result is the duplicate-key error naming that key, with no map |
| `Values.MakeValuesSuccess` | main.go:55-70 | `makeValues` succeeds iff every parameter has `=` and the keys are distinct; its map then has one entry per parameter: `|m| == |ps|`, the keys are the parameters' keys, and each key maps to its value |
| `Values.MakeValuesMissingEquals` | main.go:58-61 | the first parameter without `=`, after well-formed ones, makes `makeValues` fail with "= must be included" |
| `Values.MakeValuesDuplicateKey` | main.go:62-66 | a parameter repeating an earlier key, after well-formed ones, makes `makeValues` fail naming that key; nothing is overwritten |
| `Values.DuplicateArgumentsExample` | main.go:62-66 | `a=1 a=2` fails with the duplicate-key error naming `a` |
| `Values.MissingEqualsExample` | main.go:58-61 | `Name` alone fails with the missing-`=` error |
| `Values.TwoParameters` | main.go:57-69 | `k1=v1 k2=v2`, with different keys and no other `=`, gives exactly the map `{k1: v1, k2: v2}` |
| `Sets.Set.constructor` | main.go:100-102 | `NewSet` makes an empty set |
| `Sets.Set.Add` | main.go:91-93 | `add` makes the members the old members plus the key; adding a present key changes nothing |
| `Sets.Set.Find` | main.go:95-98 | `find` is true iff the key has been added |
| `Extraction.Fields.constructor` | main.go:73 | `Fields{set: NewSet()}` starts with a fresh empty set and no names, and the object invariant holds |
| `Extraction.Fields.ExtractField` | main.go:109-136 | keeps the invariant (no name twice; the set and the list hold the same names); the new names and the returned status are exactly `Extract(node, old names)` |
| `Extraction.DedupFromElements` | main.go:130-134 | check-then-add-then-append from a repeat-free list: the old list stays as a prefix, the result has no repeats, it holds exactly the old names and the offered ones, and every new entry is an offered name that was not there before |
| `Extraction.DedupFromOrder` | main.go:130-134 | the new entries appear in the order of their first occurrence among the offered names |
| `Extraction.ExtractIsDedup` | main.go:110-128 | a walk panics iff the tree holds a field with more than one segment, and then it carries the path of the first such field in walk order; without one, the walk completes with the old names followed by the deduplicated field references, in depth-first, left-to-right order (list nodes, then the action's pipe, then the pipe's commands, then the command's args) |
| `Extraction.ExtractEachIsDedup` | main.go:111-124 | the same for the loop over a node's children, in order, stopping at the first panic, which carries the first dotted path among the children |
| `Extraction.ExtractOnlyAppends` | main.go:130-134 | a walk, completed or panicked, only appends: the old names stay in place, no repeats are created, and every added name is a field of at most one segment in the tree |
| `Extraction.NothingNewNothingAdded` | main.go:110-132 | a subtree whose fields were all seen already (a known field, or a node of a kind the walk does not handle) leaves the names unchanged and completes |
| `Extraction.NamesInFirstOccurrenceOrder` | main.go:109-136 | a whole extraction over a tree without dotted fields completes with names that have no repeats, are exactly the tree's field names, and are ordered by first appearance in the walk; a tree without field references gives no names |
| `Command.CreateCommand` | main.go:72-83 | gives no line iff the walk panics on a dotted field; otherwise the line is `SuggestionLine(program, file, first occurrences of the tree's fields)` |
| `Command.SuggestionLineWords` | main.go:76-83 | when no word contains a space, the line splits at spaces into exactly the program name, the file name, then `name=` for each name in order |
| `Command.GreetingNames` | main.go:109-136 | for `Hello {{.Name}}, you are {{.Age}}.{{.Name}}` the walk collects `Name`, then `Age`, and `Name` only once |
| `Command.GreetingLine` | main.go:76-83 | for those names the line is `easytmpl hello.tmpl Name= Age=`, with no trailing space |

## Left out

- Strings.Join: its contract states only the empty case, the leading first
  part and the separator after it. The rest of Go's `strings.Join` (one
  part gives itself, one separator between neighbours, none at the end) is
  its body, pinned down by the round trips `JoinSplit` and `SplitJoin`. A
  fuller contract made every proof that uses `Join` too costly.
- `main` and `run` (main.go:13-53) are not modelled. They do the reading of
  `os.Args`, `template.ParseFiles`, `os.Getwd`, `os.Create`, rendering with
  `tmpl.Execute`, and the exit on error. On an error, `main` builds a message
  with `fmt.Errorf` and discards it, so nothing is printed; the process just
  exits with status 1. All of that is I/O or belongs to the template engine.
- The parser of `text/template/parse` is not part of this model. A parsed
  tree is given as a `Parse.Node` value. Only the node kinds the walk
  distinguishes are kept. Every other kind, including those that hold
  nested pipelines (`if`, `range`, `with`, `template`), is `Other`, which
  the walk ignores as the Go type switch does.
- `os.Args[0]` and `os.Args[1]` are the parameters `program` and `fileName`
  of `CreateCommand`.
- `Command.CreateCommand` models the printing (`fmt.Printf`, main.go:83) as
  the returned line, without its newline. The program stops on a panic
  instead of printing; this is modelled as returning `None`.
- `Sets.Set`: the Go `map[string]struct{}` is a `set<string>`. The `member`
  field is dropped, since the `struct{}` value that `add` stores carries
  nothing. Go map iteration order is never used.
- The Go field `Fields.set` is the constant field `seen`, since the
  program never reassigns it.
