/**
 * `createCommand`: the suggestion mode. It collects the template's field
 * names and builds the line `<program> <template-file> name1= name2= ...`
 * that the program prints.
 */
module Command {
  import opened Wrappers
  import opened Strings
  import opened Parse
  import opened Extraction

  /** One `name=` token per name, in order. */
  function Assignments(names: seq<string>): seq<string>
  {
    seq(|names|, i requires 0 <= i < |names| => names[i] + "=")
  }

  /** The words of the printed line: `os.Args[0]`, `os.Args[1]`, then one
      `name=` per collected name. */
  function SuggestionWords(program: string, fileName: string, names: seq<string>): seq<string>
  {
    [program, fileName] + Assignments(names)
  }

  /** The printed line, without its newline. */
  function SuggestionLine(program: string, fileName: string, names: seq<string>): string
  {
    Join(SuggestionWords(program, fileName, names), ' ')
  }

  /** The distinct field names of a tree without dotted fields, in order of
      first appearance. */
  function FirstOccurrences(root: Node): seq<string>
  {
    DedupFrom([], Occurrences(root))
  }

  /** `createCommand(tmpl)` with `os.Args[0]` as `program` and `os.Args[1]` as
      `fileName`: `None` when the walk panics on a dotted field, otherwise the
      line that would be printed. */
  method CreateCommand(program: string, fileName: string, root: Node) returns (line: Option<string>)
    ensures line.None? <==> Dotted(root)
    ensures line.Some? ==> line.value == SuggestionLine(program, fileName, FirstOccurrences(root))
  {
    var fields := new Fields();
    var status := fields.ExtractField(root);
    ExtractIsDedup(root, []);
    if status.Panicked? {
      return None;
    }
    var names := fields.names;
    var args: seq<string> := [];
    for i := 0 to |names|
      invariant args == Assignments(names[..i])
    {
      assert names[..i + 1] == names[..i] + [names[i]];
      args := args + [names[i] + "="];
    }
    assert names[..|names|] == names;
    var command := [program, fileName];
    command := command + args;
    return Some(Join(command, ' '));
  }

  /** When no word holds a space, the line splits back, at its spaces, into
      the program, the file name and one `name=` per name, in order. */
  lemma SuggestionLineWords(program: string, fileName: string, names: seq<string>)
    requires ' ' !in program && ' ' !in fileName
    requires forall i :: 0 <= i < |names| ==> ' ' !in names[i]
    ensures var words := Split(SuggestionLine(program, fileName, names), ' ');
      && |words| == |names| + 2
      && words[0] == program && words[1] == fileName
      && (forall i :: 0 <= i < |names| ==> words[i + 2] == names[i] + "=")
  {
    var words := SuggestionWords(program, fileName, names);
    forall i | 0 <= i < |words|
      ensures ' ' !in words[i]
    {
      if i >= 2 {
        assert words[i] == names[i - 2] + "=";
      }
    }
    SplitJoin(words, ' ');
  }

  /** The tree of `{{.name}}`: an action whose pipeline is one command whose
      one argument is the field. */
  function Reference(name: string): Node
  {
    Action(Pipe([Command([Field([name])])]))
  }

  /** The tree `text/template` builds for `Hello {{.Name}}, you are {{.Age}}.`
      with one more `{{.Name}}` at the end: text and actions alternating,
      ending with an action. */
  function Greeting(): Node
  {
    List([Other, Reference("Name"), Other, Reference("Age"), Other, Reference("Name")])
  }

  /** `{{.name}}` adds `name` unless it was already collected. */
  lemma ExtractReference(name: string, acc: seq<string>)
    ensures Extract(Reference(name), acc) ==
      Walk(if name in acc then acc else acc + [name], Completed)
  {
    var w := Walk(if name in acc then acc else acc + [name], Completed);
    assert FieldName([name]) == name;
    assert Extract(Field([name]), acc) == w;
    assert ExtractEach([Field([name])], acc) == w;
    assert Extract(Command([Field([name])]), acc) == w;
    assert ExtractEach([Command([Field([name])])], acc) == w;
  }

  /** On that tree the walk finds `Name` then `Age`, and `Name` once only. */
  lemma GreetingNames()
    ensures Extract(Greeting(), []) == Walk(["Name", "Age"], Completed)
  {
    var ns := Greeting().nodes;
    var w := Walk(["Name", "Age"], Completed);
    ExtractReference("Name", ["Name", "Age"]);
    assert ExtractEach(ns[5..], ["Name", "Age"]) == w;
    assert ExtractEach(ns[4..], ["Name", "Age"]) == w;
    ExtractReference("Age", ["Name"]);
    assert ["Name"] + ["Age"] == ["Name", "Age"];
    assert ns[3..][1..] == ns[4..];
    assert ExtractEach(ns[3..], ["Name"]) == w;
    assert ExtractEach(ns[2..], ["Name"]) == w;
    ExtractReference("Name", []);
    assert [] + ["Name"] == ["Name"];
    assert ns[1..][1..] == ns[2..];
    assert ExtractEach(ns[1..], []) == w;
  }

  /** For those names the printed line ends in `Age=`, with no space after it. */
  lemma GreetingLine()
    ensures SuggestionLine("easytmpl", "hello.tmpl", ["Name", "Age"]) == "easytmpl hello.tmpl Name= Age="
  {
    var a := Assignments(["Name", "Age"]);
    assert a[0] == "Name=" && a[1] == "Age=";
    assert a == ["Name=", "Age="];
  }
}
