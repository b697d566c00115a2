/**
  One line of the collection manifest, `<name>:<directory>[:<encoding>]`, as the script's
  main loop reads it: the line is stripped, split on `:`, field 0 is the collection name,
  field 1 the directory, and field 2, when there is one, the character encoding.
*/
module Manifest {
  import opened Wrappers
  import opened Text

  /** The encoding used when a line names none. */
  const DefaultEncoding: string := "utf-8"

  datatype CollectionEntry = CollectionEntry(name: string, directory: string, encoding: string)

  /** `info[1]` on a line with a single field raises `IndexError`. */
  datatype ManifestError = MissingDirectory

  /** The stripped line splits into two fields or more exactly when the line holds a `:`. */
  lemma ColonFields(line: string)
    ensures |Split(Strip(line), ':')| >= 2 <==> ':' in line
  {
    var t := Strip(line);
    var parts := Split(t, ':');
    assert |parts| >= 1 && (|parts| == 1 <==> ':' !in t);
    assert !IsSpace(':');
    StripKeeps(line, ':');
    assert ':' in t <==> ':' in line;
  }

  /** Parses one manifest line; a line without `:` (a blank line among them) has no directory. */
  function ParseManifestLine(line: string): (r: Result<CollectionEntry, ManifestError>)
    ensures r.Success? <==> ':' in line
    ensures r.Success? ==> ':' !in r.value.name && ':' !in r.value.directory && ':' !in r.value.encoding
  {
    var info := Split(Strip(line), ':');
    ColonFields(line);
    if |info| < 2 then Failure(MissingDirectory)
    else
      assert info[0] in info && info[1] in info;
      assert |info| > 2 ==> info[2] in info;
      Success(CollectionEntry(
        name := info[0],
        directory := info[1],
        encoding := if |info| > 2 then info[2] else DefaultEncoding))
  }

  /**
    A line whose stripped text is the colon-separated `fields` parses to the first two of
    them and to the third as the encoding, or to "utf-8" when there are only two; any
    further fields are ignored.
  */
  lemma ParseFields(line: string, fields: seq<string>)
    requires |fields| >= 2
    requires forall f :: f in fields ==> ':' !in f
    requires Strip(line) == Join(fields, ':')
    ensures ParseManifestLine(line)
         == Success(CollectionEntry(fields[0], fields[1], if |fields| > 2 then fields[2] else "utf-8"))
  {
    SplitJoin(fields, ':');
  }

  /** The manifest line a collection entry is written as. */
  function EntryLine(e: CollectionEntry): string
  {
    e.name + ":" + e.directory + ":" + e.encoding
  }

  /**
    Writing an entry as a line and parsing it back gives the entry, as long as no field
    holds a `:` and the line does not start or end with whitespace; surrounding whitespace,
    such as the line's newline, is dropped.
  */
  lemma ParseEntryLine(e: CollectionEntry, lead: string, trail: string)
    requires ':' !in e.name && ':' !in e.directory && ':' !in e.encoding
    requires Trimmed(EntryLine(e))
    requires forall i :: 0 <= i < |lead| ==> IsSpace(lead[i])
    requires forall i :: 0 <= i < |trail| ==> IsSpace(trail[i])
    ensures ParseManifestLine(lead + EntryLine(e) + trail) == Success(e)
  {
    var body := EntryLine(e);
    StripSurrounded(lead, body, trail);
    var fields := [e.name, e.directory, e.encoding];
    JoinThree(e.name, e.directory, e.encoding);
    assert forall f :: f in fields ==> ':' !in f;
    ParseFields(lead + body + trail, fields);
  }

  lemma JoinThree(a: string, b: string, c: string)
    ensures Join([a, b, c], ':') == a + ":" + b + ":" + c
  {
    assert [a, b, c][1..] == [b, c];
    assert [b, c][1..] == [c];
    assert Join([c], ':') == c;
    assert Join([b, c], ':') == b + [':'] + c;
    assert Join([a, b, c], ':') == a + [':'] + (b + [':'] + c);
  }

  /** The same with the encoding left out: the line `<name>:<directory>` defaults to "utf-8". */
  lemma ParseEntryLineDefault(name: string, directory: string)
    requires ':' !in name && ':' !in directory
    requires Trimmed(name + ":" + directory)
    ensures ParseManifestLine(name + ":" + directory)
         == Success(CollectionEntry(name, directory, DefaultEncoding))
  {
    StripTrimmed(name + ":" + directory);
    var fields := [name, directory];
    assert Join(fields, ':') == name + ":" + directory by {
      assert Join(fields[1..], ':') == directory;
    }
    ParseFields(name + ":" + directory, fields);
  }
}
