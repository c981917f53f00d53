/**
 * beyannameno.py: for each answer file of a list, parse it, strip the
 * namespaces and store the text of its `Beyanname_no` child under the file
 * name in the dictionary the caller passed in, which is also returned.
 */
module BeyannameNo {
  import opened Wrappers
  import opened PyExceptions
  import opened ElementTree

  /** The caller's dictionary, which the function fills in place. */
  class SonucDict {
    var entries: map<string, Option<string>>

    constructor(entries: map<string, Option<string>>)
      ensures this.entries == entries
    {
      this.entries := entries;
    }
  }

  /**
   * One file's declaration number: the text of the first `Beyanname_no`
   * child of the stripped root. A file the parser cannot open raises, and
   * so does `.text` on the None of a missing child.
   */
  function NumberOf(docs: map<string, Node>, file: string): Result<Option<string>, Exception>
  {
    if file !in docs then Err(FileNotFound(file))
    else
      var root :- Stripped(docs[file]);
      var number :- if Find(root, "Beyanname_no").Some? then Ok(Find(root, "Beyanname_no").value)
                    else Err(AttributeError("text"));
      Ok(number.text)
  }

  /** The dictionary after the loop, and the exception that ended it early, if any. */
  datatype Outcome = Outcome(entries: map<string, Option<string>>, error: Option<Exception>)

  /** The loop over the file list from a given dictionary, stopping at the first exception. */
  function Fill(files: seq<string>, docs: map<string, Node>, m: map<string, Option<string>>): Outcome
    decreases |files|
  {
    if files == [] then Outcome(m, None)
    else
      match NumberOf(docs, files[0])
      case Err(e) => Outcome(m, Some(e))
      case Ok(number) => Fill(files[1..], docs, m[files[0] := number])
  }

  /**
   * `beyannamenogetter(filelistsonuc, sonuc_dict)`: the dictionary is filled
   * in place, file by file, and the same dictionary is returned; an exception
   * leaves the files before it stored.
   */
  method BeyannameNoGetter(files: seq<string>, docs: map<string, Node>, sonucDict: SonucDict)
    returns (r: Result<SonucDict, Exception>)
    modifies sonucDict
    ensures sonucDict.entries == Fill(files, docs, old(sonucDict.entries)).entries
    ensures r.Err? <==> Fill(files, docs, old(sonucDict.entries)).error.Some?
    ensures r.Err? ==> r.error == Fill(files, docs, old(sonucDict.entries)).error.value
    ensures r.Ok? ==> r.value == sonucDict
  {
    for i := 0 to |files|
      invariant Fill(files, docs, old(sonucDict.entries)) == Fill(files[i..], docs, sonucDict.entries)
    {
      assert files[i..][1..] == files[i + 1..];
      var filename := files[i];
      if filename !in docs {
        return Err(FileNotFound(filename));
      }
      var root :- StripDocument(docs[filename]);
      var found := Find(root, "Beyanname_no");
      if found.None? {
        return Err(AttributeError("text"));
      }
      var beyannameNo := found.value.text;
      sonucDict.entries := sonucDict.entries[filename := beyannameNo];
    }
    r := Ok(sonucDict);
  }

  /**
   * A file's number exists exactly when the file parses, every tag is
   * namespace-qualified and the root has a `Beyanname_no` child; it is the
   * text of the first such child.
   */
  lemma NumberOfSpec(docs: map<string, Node>, file: string)
    ensures NumberOf(docs, file).Ok? <==>
      file in docs && Stripped(docs[file]).Ok? && FindAll(Stripped(docs[file]).value, "Beyanname_no") != []
    ensures NumberOf(docs, file).Ok? ==>
      NumberOf(docs, file).value == FindAll(Stripped(docs[file]).value, "Beyanname_no")[0].text
    ensures file in docs && Stripped(docs[file]).Ok? && FindAll(Stripped(docs[file]).value, "Beyanname_no") == [] ==>
      NumberOf(docs, file) == Err(AttributeError("text"))
  {
    if file in docs && Stripped(docs[file]).Ok? {
      FindIsFirstOfFindAll(Stripped(docs[file]).value, "Beyanname_no");
    }
  }

  /**
   * When the loop finishes, every file of the list is a key holding its
   * number, and every other key keeps its value; no other key appears.
   */
  lemma {:induction false} FillComplete(files: seq<string>, docs: map<string, Node>, m: map<string, Option<string>>)
    requires Fill(files, docs, m).error.None?
    ensures forall f :: f in files ==>
      NumberOf(docs, f).Ok? && f in Fill(files, docs, m).entries && Fill(files, docs, m).entries[f] == NumberOf(docs, f).value
    ensures forall k :: k in m && k !in files ==>
      k in Fill(files, docs, m).entries && Fill(files, docs, m).entries[k] == m[k]
    ensures forall k :: k in Fill(files, docs, m).entries ==> k in m || k in files
    decreases |files|
  {
    if files != [] {
      var m' := m[files[0] := NumberOf(docs, files[0]).value];
      FillComplete(files[1..], docs, m');
      assert forall f :: f in files ==> f == files[0] || f in files[1..];
      forall f | f in files
        ensures NumberOf(docs, f).Ok? && Fill(files, docs, m).entries[f] == NumberOf(docs, f).value
      {
        if f !in files[1..] {
          FillKeeps(files[1..], docs, m', f);
        }
      }
    }
  }

  /** A key that no later file names keeps its value through the rest of the loop, whatever happens there. */
  lemma {:induction false} FillKeeps(files: seq<string>, docs: map<string, Node>, m: map<string, Option<string>>, k: string)
    requires k in m && k !in files
    ensures k in Fill(files, docs, m).entries && Fill(files, docs, m).entries[k] == m[k]
    decreases |files|
  {
    if files != [] && NumberOf(docs, files[0]).Ok? {
      assert k != files[0];
      FillKeeps(files[1..], docs, m[files[0] := NumberOf(docs, files[0]).value], k);
    }
  }

  /**
   * The loop stops early exactly when some file of the list has no number.
   */
  lemma {:induction false} FillStops(files: seq<string>, docs: map<string, Node>, m: map<string, Option<string>>)
    ensures Fill(files, docs, m).error.Some? <==> exists i :: 0 <= i < |files| && NumberOf(docs, files[i]).Err?
    decreases |files|
  {
    if files != [] && NumberOf(docs, files[0]).Ok? {
      FillStops(files[1..], docs, m[files[0] := NumberOf(docs, files[0]).value]);
      if exists i :: 0 <= i < |files| && NumberOf(docs, files[i]).Err? {
        var i :| 0 <= i < |files| && NumberOf(docs, files[i]).Err?;
        assert files[1..][i - 1] == files[i];
      }
      if Fill(files, docs, m).error.Some? {
        var i :| 0 <= i < |files[1..]| && NumberOf(docs, files[1..][i]).Err?;
        assert files[i + 1] == files[1..][i];
      }
    } else if files != [] {
      assert NumberOf(docs, files[0]).Err?;
    }
  }

  /**
   * At the first file without a number, the loop ends with that file's
   * exception and the dictionary holding the files before it.
   */
  lemma {:induction false} FillStopsAt(files: seq<string>, docs: map<string, Node>, m: map<string, Option<string>>, i: nat)
    requires i < |files| && NumberOf(docs, files[i]).Err?
    requires forall j :: 0 <= j < i ==> NumberOf(docs, files[j]).Ok?
    ensures Fill(files, docs, m) == Outcome(Fill(files[..i], docs, m).entries, Some(NumberOf(docs, files[i]).error))
    decreases i
  {
    if i > 0 {
      var m' := m[files[0] := NumberOf(docs, files[0]).value];
      assert forall j :: 0 <= j < i - 1 ==> files[1..][j] == files[j + 1];
      FillStopsAt(files[1..], docs, m', i - 1);
      assert files[..i][1..] == files[1..][..i - 1];
    } else {
      assert files[..0] == [];
    }
  }
}
