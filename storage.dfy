/** The artifacts an extraction leaves behind (convert_pdf_to_images.py,
    save_text_to_file): `name.txt` holding the text and `name.json` holding a
    record whose single key "extracted_text" maps to the same text. Files are
    a map from path to content; paths whose opening for writing raises are a
    fixed set. */
module Storage {

  /** The content of one file as the program writes it: raw text, or a JSON
      object (its indentation is not modelled). */
  datatype Artifact = PlainText(content: string) | JsonRecord(fields: map<string, string>)

  type Files = map<string, Artifact>

  const TextKey: string := "extracted_text"

  function TxtPath(name: string): string {
    name + ".txt"
  }

  function JsonPath(name: string): string {
    name + ".json"
  }

  /** The JSON document `{"extracted_text": text}`. */
  function Record(text: string): Artifact {
    JsonRecord(map[TextKey := text])
  }

  /** The two artifact paths of one name never coincide, and neither coincides
      with an artifact path of another name: ".txt" and ".json" end in
      different characters and the same-kind paths of two names differ. */
  lemma ArtifactPathsDistinct(m: string, n: string)
    ensures TxtPath(m) != JsonPath(n)
    ensures m != n ==> TxtPath(m) != TxtPath(n) && JsonPath(m) != JsonPath(n)
  {
    var t, j := TxtPath(m), JsonPath(n);
    assert t[|t| - 1] == 't' && j[|j| - 1] == 'n';
    if m != n {
      assert TxtPath(m)[..|m|] == m && TxtPath(n)[..|n|] == n;
      assert JsonPath(m)[..|m|] == m && JsonPath(n)[..|n|] == n;
    }
  }

  /** The files that differ from `files` at most at the paths in `touched`. */
  ghost predicate ElsewhereUnchanged(files: Files, r: Files, touched: set<string>) {
    forall p :: p !in touched ==> (p in r <==> p in files) && (p in files ==> r[p] == files[p])
  }

  /** The file state after `save_text_to_file(text, name)`. The text file is
      written first; if opening it raises, nothing is written. Otherwise the
      JSON file is written next; if opening that raises, the text file stays
      written alone. Both exceptions are swallowed. No other path changes. */
  function Save(files: Files, unwritable: set<string>, text: string, name: string): (r: Files)
    ensures TxtPath(name) in unwritable ==> r == files
    ensures TxtPath(name) !in unwritable ==> TxtPath(name) in r && r[TxtPath(name)] == PlainText(text)
    ensures TxtPath(name) !in unwritable && JsonPath(name) !in unwritable ==>
              JsonPath(name) in r && r[JsonPath(name)] == Record(text)
    ensures JsonPath(name) in unwritable ==>
              (JsonPath(name) in r <==> JsonPath(name) in files)
              && (JsonPath(name) in files ==> r[JsonPath(name)] == files[JsonPath(name)])
    ensures ElsewhereUnchanged(files, r, {TxtPath(name), JsonPath(name)})
  {
    ArtifactPathsDistinct(name, name);
    if TxtPath(name) in unwritable then files
    else if JsonPath(name) in unwritable then files[TxtPath(name) := PlainText(text)]
    else files[TxtPath(name) := PlainText(text)][JsonPath(name) := Record(text)]
  }

  /** `name.txt` and `name.json` hold the same text. */
  predicate Paired(files: Files, name: string) {
    TxtPath(name) in files && JsonPath(name) in files
    && files[TxtPath(name)].PlainText? && files[JsonPath(name)] == Record(files[TxtPath(name)].content)
  }

  /** Round trip: when both files can be written, reading `name.txt` back
      gives exactly the saved text and `name.json` pairs with it, whatever was
      there before. */
  lemma SaveRoundTrip(files: Files, unwritable: set<string>, text: string, name: string)
    requires TxtPath(name) !in unwritable && JsonPath(name) !in unwritable
    ensures Paired(Save(files, unwritable, text, name), name)
    ensures Save(files, unwritable, text, name)[TxtPath(name)].content == text
    ensures Save(files, unwritable, text, name)[JsonPath(name)].fields[TextKey] == text
  {
    ArtifactPathsDistinct(name, name);
  }

  /** A second save under the same name overwrites the first entirely, in
      every case of failing writes; saving the same text twice is therefore
      the same as saving it once. */
  lemma SaveOverwrites(files: Files, unwritable: set<string>, t1: string, t2: string, name: string)
    ensures Save(Save(files, unwritable, t1, name), unwritable, t2, name) == Save(files, unwritable, t2, name)
  {
    ArtifactPathsDistinct(name, name);
    var txt, json := TxtPath(name), JsonPath(name);
    if txt !in unwritable && json !in unwritable {
      var mid := files[txt := PlainText(t1)][json := Record(t1)];
      assert mid[txt := PlainText(t2)][json := Record(t2)]
          == files[txt := PlainText(t2)][json := Record(t2)];
    } else if txt !in unwritable {
      assert files[txt := PlainText(t1)][txt := PlainText(t2)] == files[txt := PlainText(t2)];
    }
  }

  lemma SaveIdempotent(files: Files, unwritable: set<string>, text: string, name: string)
    ensures Save(Save(files, unwritable, text, name), unwritable, text, name) == Save(files, unwritable, text, name)
  {
    SaveOverwrites(files, unwritable, text, text, name);
  }

  /** A save whose JSON file cannot be opened leaves the text file written and
      the pair broken: the partial write the program does not guard against. */
  lemma PartialSave(files: Files, unwritable: set<string>, text: string, name: string)
    requires TxtPath(name) !in unwritable && JsonPath(name) in unwritable
    requires JsonPath(name) !in files
    ensures !Paired(Save(files, unwritable, text, name), name)
    ensures Save(files, unwritable, text, name)[TxtPath(name)] == PlainText(text)
  {
    ArtifactPathsDistinct(name, name);
  }

  /** The working directory: the files present and the paths that cannot be
      opened for writing. */
  class FileSystem {
    var files: Files
    const unwritable: set<string>

    constructor(initial: Files, locked: set<string>)
      ensures files == initial && unwritable == locked
    {
      files := initial;
      unwritable := locked;
    }

    /** `with open(path, "w") as f: f.write(...)`: replaces the file's content,
        or raises (reported as `false`) and changes nothing. */
    method WriteFile(path: string, content: Artifact) returns (written: bool)
      modifies this
      ensures written <==> path !in unwritable
      ensures files == if written then old(files)[path := content] else old(files)
    {
      if path in unwritable {
        written := false;
      } else {
        files := files[path := content];
        written := true;
      }
    }

    /** `save_text_to_file(text, name)`: the text file, then the JSON file;
        the first failing write ends the save, silently. */
    method SaveTextToFile(text: string, name: string)
      modifies this
      ensures files == Save(old(files), unwritable, text, name)
    {
      var written := WriteFile(TxtPath(name), PlainText(text));
      if written {
        written := WriteFile(JsonPath(name), Record(text));
      }
    }
  }
}
