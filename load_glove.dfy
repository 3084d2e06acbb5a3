/**
 * `load_glove_vectors`: read a GloVe embedding file line by line; each line
 * holds a word followed by the numbers of its vector, separated by
 * whitespace. The loader collects the set of words and a table from word to
 * vector; a word seen again replaces its earlier vector. A line with no field
 * at all, or a field that is not a number, stops the whole load.
 *
 * The file is given as its sequence of lines. The conversion of one field to
 * a 64-bit float is the parameter `parse`, partial (None when the text is not
 * a number) and over an opaque value type `V`.
 */
module GloveLoader {
  import opened Wrappers
  import opened Tokenize

  /** The word and vector read from one line. */
  datatype Entry<V> = Entry(word: string, vector: seq<V>)

  /** Why one line could not be loaded: it has no field (`line[0]` on an
      empty list), or the field at `column` (counting the word as column 0)
      is not a number. */
  datatype LineError = NoFields | NotANumber(column: nat, text: string)

  /** A failed load: the index of the offending line and what is wrong with it. */
  datatype LoadError = LoadError(line: nat, reason: LineError)

  /** The two structures the loader builds: the set of words and the table
      from word to vector. */
  datatype Glove<V> = Glove(words: set<string>, table: map<string, seq<V>>)

  /** Converting a list of fields to a vector, element by element, in order.
      Fails at the first field that does not convert. */
  function ParseVector<V>(fields: seq<string>, parse: string -> Option<V>): (r: Result<seq<V>, nat>)
    ensures r.Success? <==> forall k :: 0 <= k < |fields| ==> parse(fields[k]).Some?
    ensures r.Success? ==> |r.value| == |fields|
                           && forall k :: 0 <= k < |fields| ==> parse(fields[k]) == Some(r.value[k])
    ensures r.Failure? ==> r.error < |fields| && parse(fields[r.error]).None?
                           && forall k :: 0 <= k < r.error ==> parse(fields[k]).Some?
  {
    if fields == [] then Success([])
    else
      match parse(fields[0])
      case None => Failure(0)
      case Some(x) =>
        match ParseVector(fields[1..], parse)
        case Failure(k) => Failure(k + 1)
        case Success(xs) => Success([x] + xs)
  }

  /** One line: its first field is the word, the others the vector. */
  function ParseLine<V>(line: string, parse: string -> Option<V>): Result<Entry<V>, LineError> {
    var fields := Fields(line);
    if fields == [] then Failure(NoFields)
    else
      match ParseVector(fields[1..], parse)
      case Failure(k) => Failure(NotANumber(k + 1, fields[k + 1]))
      case Success(v) => Success(Entry(fields[0], v))
  }

  /** What one line yields: no field exactly when the line is blank; an
      entry exactly when it has a field and every later field converts; the
      entry's word is the first field and its vector has one element per
      remaining field, each the conversion of that field, in order; otherwise
      the error names the first field that does not convert. */
  lemma LineEntry<V>(line: string, parse: string -> Option<V>)
    ensures ParseLine(line, parse) == Failure(NoFields) <==> AllSpace(line)
    ensures ParseLine(line, parse).Success? <==>
              Fields(line) != [] && forall k :: 1 <= k < |Fields(line)| ==> parse(Fields(line)[k]).Some?
    ensures ParseLine(line, parse).Success? ==>
              var fs := Fields(line); var e := ParseLine(line, parse).value;
              && e.word == fs[0]
              && |e.vector| == |fs| - 1
              && forall k :: 0 <= k < |e.vector| ==> parse(fs[k + 1]) == Some(e.vector[k])
    ensures ParseLine(line, parse).Failure? && ParseLine(line, parse).error.NotANumber? ==>
              var fs := Fields(line); var c := ParseLine(line, parse).error.column;
              && 1 <= c < |fs| && ParseLine(line, parse).error.text == fs[c] && parse(fs[c]).None?
              && forall k :: 1 <= k < c ==> parse(fs[k]).Some?
  {
    var fields := Fields(line);
    FieldsAreSplit(line);
    SplitEmptyIffBlank(line);
    if fields != [] {
      var tail := fields[1..];
      assert forall k :: 1 <= k < |fields| ==> fields[k] == tail[k - 1];
    }
  }

  /** Line `line` has `w` as its first field. */
  predicate HasKey(line: string, w: string) {
    Fields(line) != [] && Fields(line)[0] == w
  }

  /** The line reader the loader uses: `ParseLine` with the given conversion. */
  function Reader<V>(parse: string -> Option<V>): string -> Result<Entry<V>, LineError> {
    line => ParseLine(line, parse)
  }

  /** Loading `lines` with a given line reader, line after line: the words
      and table after the last line, or the error of the first line that
      fails. Each entry adds its word to the set and stores its vector under
      that word, replacing what was there. */
  function LoadWith<V>(lines: seq<string>, read: string -> Result<Entry<V>, LineError>): Result<Glove<V>, LoadError>
    decreases |lines|
  {
    if lines == [] then Success(Glove({}, map[]))
    else
      var n := |lines| - 1;
      match LoadWith(lines[..n], read)
      case Failure(e) => Failure(e)
      case Success(g) =>
        match read(lines[n])
        case Failure(why) => Failure(LoadError(n, why))
        case Success(e) => Success(Glove(g.words + {e.word}, g.table[e.word := e.vector]))
  }

  /** What `load_glove_vectors` returns for the file whose lines are `lines`. */
  function Loaded<V>(lines: seq<string>, parse: string -> Option<V>): Result<Glove<V>, LoadError> {
    LoadWith(lines, Reader(parse))
  }

  /** The loader itself: one pass over the lines, adding each word to the
      set and storing its vector in the table; the first bad line ends the
      load with an error and no tables. */
  method LoadGloveVectors<V>(lines: seq<string>, parse: string -> Option<V>)
    returns (r: Result<Glove<V>, LoadError>)
    ensures r == Loaded(lines, parse)
    ensures r.Success? ==> r.value.words == r.value.table.Keys
    ensures lines == [] ==> r == Success(Glove({}, map[]))
  {
    var words: set<string> := {};
    var table: map<string, seq<V>> := map[];
    var i := 0;
    while i < |lines|
      invariant 0 <= i <= |lines|
      invariant LoadWith(lines[..i], Reader(parse)) == Success(Glove(words, table))
      invariant words == table.Keys
    {
      assert lines[..i + 1][..i] == lines[..i];
      var fields := Fields(lines[i]);
      if fields == [] {
        r := Failure(LoadError(i, NoFields));
        FailureIsFinal(lines, i + 1, Reader(parse));
        return;
      }
      var word := fields[0];
      words := words + {word};
      var vector := ParseVector(fields[1..], parse);
      if vector.Failure? {
        r := Failure(LoadError(i, NotANumber(vector.error + 1, fields[vector.error + 1])));
        FailureIsFinal(lines, i + 1, Reader(parse));
        return;
      }
      table := table[word := vector.value];
      i := i + 1;
    }
    assert lines[..i] == lines;
    r := Success(Glove(words, table));
  }

  /** Once a prefix of the lines has failed, the whole load fails with the
      same error: nothing after the bad line is looked at. */
  lemma {:induction false} FailureIsFinal<V>(lines: seq<string>, k: nat, read: string -> Result<Entry<V>, LineError>)
    requires k <= |lines|
    requires LoadWith(lines[..k], read).Failure?
    ensures LoadWith(lines, read) == LoadWith(lines[..k], read)
    decreases |lines|
  {
    if k < |lines| {
      var n := |lines| - 1;
      assert lines[..n][..k] == lines[..k];
      FailureIsFinal(lines[..n], k, read);
    } else {
      assert lines[..k] == lines;
    }
  }

  /** The load succeeds exactly when every line does; when it fails, the
      error names the first failing line and why that line fails. */
  lemma {:induction false} FailsAtFirstBadLine<V>(lines: seq<string>, read: string -> Result<Entry<V>, LineError>)
    ensures LoadWith(lines, read).Success? <==> forall i :: 0 <= i < |lines| ==> read(lines[i]).Success?
    ensures LoadWith(lines, read).Failure? ==>
              var e := LoadWith(lines, read).error;
              && e.line < |lines|
              && read(lines[e.line]) == Failure(e.reason)
              && forall j :: 0 <= j < e.line ==> read(lines[j]).Success?
    decreases |lines|
  {
    if lines != [] {
      var n := |lines| - 1;
      var prefix := lines[..n];
      FailsAtFirstBadLine(prefix, read);
      assert forall j :: 0 <= j < n ==> prefix[j] == lines[j];
    }
  }

  /** After a successful load the set of words is the table's key set, and
      a word is in it exactly when some line's entry carries it. */
  lemma {:induction false} WordsAreKeys<V>(lines: seq<string>, read: string -> Result<Entry<V>, LineError>)
    requires LoadWith(lines, read).Success?
    ensures var g := LoadWith(lines, read).value;
            && g.words == g.table.Keys
            && forall w :: w in g.words <==>
                 exists i :: 0 <= i < |lines| && read(lines[i]).Success? && read(lines[i]).value.word == w
    decreases |lines|
  {
    if lines != [] {
      var n := |lines| - 1;
      var prefix := lines[..n];
      WordsAreKeys(prefix, read);
      assert forall j :: 0 <= j < n ==> prefix[j] == lines[j];
      var g := LoadWith(lines, read).value;
      forall w | w in g.words
        ensures exists i :: 0 <= i < |lines| && read(lines[i]).Success? && read(lines[i]).value.word == w
      {
        if w !in LoadWith(prefix, read).value.words {
          assert read(lines[n]).Success? && read(lines[n]).value.word == w;
        }
      }
    }
  }

  /** Last write wins: when line `i` is the last line whose entry carries
      the word `w`, the table maps `w` to the vector of line `i`. */
  lemma {:induction false} LastEntryWins<V>(lines: seq<string>, i: nat, w: string, read: string -> Result<Entry<V>, LineError>)
    requires LoadWith(lines, read).Success?
    requires i < |lines| && read(lines[i]).Success? && read(lines[i]).value.word == w
    requires forall j :: i < j < |lines| && read(lines[j]).Success? ==> read(lines[j]).value.word != w
    ensures var g := LoadWith(lines, read).value;
            w in g.table && read(lines[i]) == Success(Entry(w, g.table[w]))
    decreases |lines|
  {
    var n := |lines| - 1;
    var prefix := lines[..n];
    if i < n {
      assert prefix[i] == lines[i];
      assert forall j :: i < j < n ==> prefix[j] == lines[j];
      LastEntryWins(prefix, i, w, read);
    }
  }

  /** Entries are only ever added: the words and keys of any prefix of a
      successful load are among the final ones. */
  lemma {:induction false} WordsOnlyGrow<V>(lines: seq<string>, k: nat, read: string -> Result<Entry<V>, LineError>)
    requires LoadWith(lines, read).Success?
    requires k <= |lines|
    ensures LoadWith(lines[..k], read).Success?
    ensures LoadWith(lines[..k], read).value.words <= LoadWith(lines, read).value.words
    ensures LoadWith(lines[..k], read).value.table.Keys <= LoadWith(lines, read).value.table.Keys
    decreases |lines|
  {
    if k < |lines| {
      var n := |lines| - 1;
      assert lines[..n][..k] == lines[..k];
      WordsOnlyGrow(lines[..n], k, read);
    } else {
      assert lines[..k] == lines;
    }
  }

  /** A blank or whitespace-only line anywhere makes the whole load fail;
      the first such line, if no earlier line fails, is the one reported. */
  lemma BlankLineFailsLoad<V>(lines: seq<string>, i: nat, parse: string -> Option<V>)
    requires i < |lines| && AllSpace(lines[i])
    ensures Loaded(lines, parse).Failure?
    ensures (forall j :: 0 <= j < i ==> ParseLine(lines[j], parse).Success?) ==>
              Loaded(lines, parse) == Failure(LoadError(i, NoFields))
  {
    LineEntry(lines[i], parse);
    FailsAtFirstBadLine(lines, Reader(parse));
  }

  /** A field after the word that does not convert, anywhere in the file,
      makes the whole load fail; if no earlier line fails, the error is at
      that line and names a non-number field no later than that one. */
  lemma BadNumberFailsLoad<V>(lines: seq<string>, i: nat, k: nat, parse: string -> Option<V>)
    requires i < |lines| && 1 <= k < |Fields(lines[i])| && parse(Fields(lines[i])[k]).None?
    ensures Loaded(lines, parse).Failure?
    ensures (forall j :: 0 <= j < i ==> ParseLine(lines[j], parse).Success?) ==>
              var e := Loaded(lines, parse).error;
              && e.line == i && e.reason.NotANumber?
              && 1 <= e.reason.column <= k
              && e.reason.text == Fields(lines[i])[e.reason.column]
              && parse(e.reason.text).None?
  {
    LineEntry(lines[i], parse);
    FailsAtFirstBadLine(lines, Reader(parse));
  }

  /** After a successful load the set of words is the table's key set, and
      a word is in it exactly when it is the first field of some line. */
  lemma WordsAreFirstFields<V>(lines: seq<string>, parse: string -> Option<V>)
    requires Loaded(lines, parse).Success?
    ensures var g := Loaded(lines, parse).value;
            && g.words == g.table.Keys
            && forall w :: w in g.words <==> exists i :: 0 <= i < |lines| && HasKey(lines[i], w)
  {
    var read := Reader(parse);
    WordsAreKeys(lines, read);
    FailsAtFirstBadLine(lines, read);
    forall i | 0 <= i < |lines|
      ensures read(lines[i]).Success? && forall w :: HasKey(lines[i], w) <==> read(lines[i]).value.word == w
    {
      LineEntry(lines[i], parse);
    }
  }

  /** Last write wins, line by line: when line `i` is the last line whose
      first field is `w`, the table maps `w` to a vector with one element per
      remaining field of line `i`, each the conversion of that field, in order. */
  lemma LastLineWins<V>(lines: seq<string>, i: nat, w: string, parse: string -> Option<V>)
    requires Loaded(lines, parse).Success?
    requires i < |lines| && HasKey(lines[i], w)
    requires forall j :: i < j < |lines| ==> !HasKey(lines[j], w)
    ensures var g := Loaded(lines, parse).value;
            && w in g.table
            && |g.table[w]| == |Fields(lines[i])| - 1
            && forall k :: 0 <= k < |g.table[w]| ==> parse(Fields(lines[i])[k + 1]) == Some(g.table[w][k])
  {
    var read := Reader(parse);
    FailsAtFirstBadLine(lines, read);
    forall j | i <= j < |lines| ensures read(lines[j]).Success? && read(lines[j]).value.word == Fields(lines[j])[0] {
      LineEntry(lines[j], parse);
    }
    LastEntryWins(lines, i, w, read);
    LineEntry(lines[i], parse);
  }

  /** A line holding only a word loads: the word maps to the empty vector. */
  lemma TokenOnlyLineLoads<V>(w: string, pad: string, parse: string -> Option<V>)
    requires IsWord(w) && AllSpace(pad)
    ensures Loaded([w + pad], parse) == Success(Glove({w}, map[w := []]))
  {
    var line := w + pad;
    assert ParseLine(line, parse) == Success(Entry(w, [])) by {
      SplitIgnoresTrailingSpace(w, pad);
      SplitWord(w);
      FieldsAreSplit(line);
      LineEntry(line, parse);
    }
    assert [line][..0] == [];
    assert Reader(parse)(line) == ParseLine(line, parse);
    assert LoadWith([line][..0], Reader(parse)) == Success(Glove({}, map[]));
    var none: seq<V> := [];
    assert LoadWith([line], Reader(parse)) == Success(Glove({} + {w}, map[][w := none]));
    assert Glove({} + {w}, map[][w := none]) == Glove({w}, map[w := none]);
  }

  /** A line holding only a word, anywhere in a file that loads, maps that
      word to the empty vector when no later line has the same word. */
  lemma TokenOnlyLineMapsToEmpty<V>(lines: seq<string>, i: nat, w: string, parse: string -> Option<V>)
    requires Loaded(lines, parse).Success?
    requires i < |lines| && Fields(lines[i]) == [w]
    requires forall j :: i < j < |lines| ==> !HasKey(lines[j], w)
    ensures var g := Loaded(lines, parse).value;
            w in g.table && g.table[w] == []
  {
    LastLineWins(lines, i, w, parse);
  }

  /** Three lines of two-dimensional vectors, the first word repeated on the
      last (`cat 1.0 2.0`, `dog 3.0 4.0`, `cat 5.0 6.0`): both words are
      loaded, and the repeated word keeps the vector of its last line. */
  lemma RepeatedWordKeepsLastVector<V>(cat: string, dog: string, n: seq<string>, parse: string -> Option<V>)
    requires IsWord(cat) && IsWord(dog) && cat != dog
    requires |n| == 6 && forall k :: 0 <= k < 6 ==> IsWord(n[k]) && parse(n[k]).Some?
    ensures var lines := [cat + " " + n[0] + " " + n[1] + "\n",
                          dog + " " + n[2] + " " + n[3] + "\n",
                          cat + " " + n[4] + " " + n[5] + "\n"];
            Loaded(lines, parse) == Success(Glove({cat, dog}, map[cat := [parse(n[4]).value, parse(n[5]).value],
                                                                  dog := [parse(n[2]).value, parse(n[3]).value]]))
  {
    var lines := [cat + " " + n[0] + " " + n[1] + "\n",
                  dog + " " + n[2] + " " + n[3] + "\n",
                  cat + " " + n[4] + " " + n[5] + "\n"];
    var v := seq(6, k requires 0 <= k < 6 => parse(n[k]).value);
    var read := Reader(parse);
    TwoNumberLine(cat, n[0], n[1], parse);
    TwoNumberLine(dog, n[2], n[3], parse);
    TwoNumberLine(cat, n[4], n[5], parse);
    assert read(lines[0]) == Success(Entry(cat, [v[0], v[1]]));
    assert read(lines[1]) == Success(Entry(dog, [v[2], v[3]]));
    assert read(lines[2]) == Success(Entry(cat, [v[4], v[5]]));
    assert lines[..1][..0] == [] && lines[..2][..1] == lines[..1] && lines[..3] == lines;
    assert lines[..1][0] == lines[0] && lines[..2][1] == lines[1];
    var empty: map<string, seq<V>> := map[];
    assert LoadWith(lines[..1][..0], read) == Success(Glove({}, empty));
    assert LoadWith(lines[..1], read) == Success(Glove({} + {cat}, empty[cat := [v[0], v[1]]]));
    assert {} + {cat} == {cat} && empty[cat := [v[0], v[1]]] == map[cat := [v[0], v[1]]];
    assert LoadWith(lines[..1], read) == Success(Glove({cat}, map[cat := [v[0], v[1]]]));
    var m1 := map[cat := [v[0], v[1]]];
    var m2 := m1[dog := [v[2], v[3]]];
    assert LoadWith(lines[..2], read) == Success(Glove({cat} + {dog}, m2));
    var m3 := m2[cat := [v[4], v[5]]];
    assert LoadWith(lines, read) == Success(Glove({cat} + {dog} + {cat}, m3));
    assert {cat} + {dog} + {cat} == {cat, dog};
    assert m3 == map[cat := [v[4], v[5]], dog := [v[2], v[3]]];
  }

  /** The entry read from a line `x y z` followed by a newline, when `y` and
      `z` both convert. */
  lemma TwoNumberLine<V>(x: string, y: string, z: string, parse: string -> Option<V>)
    requires IsWord(x) && IsWord(y) && IsWord(z)
    requires parse(y).Some? && parse(z).Some?
    ensures ParseLine(x + " " + y + " " + z + "\n", parse) == Success(Entry(x, [parse(y).value, parse(z).value]))
  {
    var line := x + " " + y + " " + z + "\n";
    assert [x, y, z][1..] == [y, z] && [y, z][1..] == [z];
    assert JoinWords([z]) == z;
    assert JoinWords([y, z]) == y + " " + z;
    assert JoinWords([x, y, z]) == x + " " + (y + " " + z);
    assert line == JoinWords([x, y, z]) + "\n";
    SplitJoinWords([x, y, z]);
    SplitIgnoresTrailingSpace(JoinWords([x, y, z]), "\n");
    FieldsAreSplit(line);
    LineEntry(line, parse);
    var v := ParseLine(line, parse).value.vector;
    assert v == [v[0], v[1]];
  }
}
