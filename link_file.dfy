/**
 * A category's link file `links_{catId}.txt`: one encoded record per line.
 * JSON encoding and decoding are library calls and enter as function
 * values; `LineCodec` states what the model needs of them.
 */
module LinkFile {
  import opened Wrappers
  import opened PhpStrings
  import opened TextLines
  import opened OrderedMap

  /** One link record with its seven fields. */
  datatype Link = Link(id: string, title: string, url: string, desc: string,
                       created: int, updated: int, pin: bool)

  /** `[id => row]`, in file order. */
  type Links = OMap<Link>

  /** `empty($row['id'])` for a string id: true for "" and for "0". */
  predicate EmptyId(id: string)
  {
    !Truthy(id)
  }

  /** What every map read from a link file satisfies: keys are the records' own, non-empty ids. */
  ghost predicate Storable(m: Links)
  {
    UniqueKeys(m) && forall i :: 0 <= i < |m| ==> m[i].0 == m[i].1.id && !EmptyId(m[i].0)
  }

  /** Text that is one complete line once an LF is written after it and the read loop chomps it. */
  predicate SingleLine(s: string)
  {
    s != [] && '\n' !in s && s[|s| - 1] != '\r'
  }

  /**
   * What `json_encode`/`json_decode($line, true)` provide for records: an
   * encoding decodes to the record it came from and is one non-empty line
   * that does not end in CR.
   */
  ghost predicate LineCodec(encode: Link -> string, decode: string -> Option<Link>)
  {
    forall r :: decode(encode(r)) == Some(r) && SingleLine(encode(r))
  }

  function RecordLines(m: Links, encode: Link -> string): seq<string>
  {
    seq(|m|, i requires 0 <= i < |m| => encode(m[i].1))
  }

  /** The contents `write_links` leaves in the file: the rows, not their keys. */
  function Serialize(m: Links, encode: Link -> string): string
  {
    Unlines(RecordLines(m, encode))
  }

  /** One pass of the `read_links` loop over a raw line. */
  function ReadLine(acc: Links, raw: string, decode: string -> Option<Link>): Links
  {
    var line := Chomp(raw);
    if line == "" then acc
    else
      match decode(line)
      case None => acc
      case Some(row) => if EmptyId(row.id) then acc else Put(acc, row.id, row)
  }

  /** The map the `read_links` loop has built after the given lines. */
  function ReadLines(ls: seq<string>, decode: string -> Option<Link>): Links
  {
    if ls == [] then [] else ReadLine(ReadLines(ls[..|ls| - 1], decode), ls[|ls| - 1], decode)
  }

  /** Reading one more line is one more pass of the loop. */
  lemma ReadLinesSnoc(ls: seq<string>, i: nat, decode: string -> Option<Link>)
    requires i < |ls|
    ensures ReadLines(ls[..i + 1], decode) == ReadLine(ReadLines(ls[..i], decode), ls[i], decode)
  {
    assert ls[..i + 1][..i] == ls[..i];
  }

  /** A read step keeps the map storable. */
  lemma ReadLineStorable(acc: Links, raw: string, decode: string -> Option<Link>)
    requires Storable(acc)
    ensures Storable(ReadLine(acc, raw, decode))
  {
    var line := Chomp(raw);
    if line != "" && decode(line).Some? && !EmptyId(decode(line).value.id) {
      PutStorable(acc, decode(line).value);
    }
  }

  /** Whatever lines are read, the map built from them is storable. */
  lemma {:induction false} ReadLinesStorable(ls: seq<string>, decode: string -> Option<Link>)
    ensures Storable(ReadLines(ls, decode))
  {
    if ls != [] {
      var init := ls[..|ls| - 1];
      ReadLinesStorable(init, decode);
      ReadLineStorable(ReadLines(init, decode), ls[|ls| - 1], decode);
    }
  }

  /** `read_links` for the file at `path`: a missing file reads as an empty map. */
  function ParseFile(files: map<string, string>, path: string, decode: string -> Option<Link>): Links
  {
    if path in files then ReadLines(Lines(files[path]), decode) else []
  }

  /**
   * Whatever the link file holds, or when it is missing, the map `read_links`
   * returns has unique keys equal to their records' non-empty ids; a missing
   * file reads as the empty map.
   */
  lemma ParseFileStorable(files: map<string, string>, path: string, decode: string -> Option<Link>)
    ensures Storable(ParseFile(files, path, decode))
    ensures path !in files ==> ParseFile(files, path, decode) == []
  {
    if path in files {
      ReadLinesStorable(Lines(files[path]), decode);
    }
  }

  /** The contents after writing the first `i + 1` records: those after `i`, then record `i` and an LF. */
  lemma SerializeSnoc(m: Links, i: nat, encode: Link -> string)
    requires i < |m|
    ensures Serialize(m[..i + 1], encode) == Serialize(m[..i], encode) + encode(m[i].1) + "\n"
  {
    assert RecordLines(m[..i + 1], encode)[..i] == RecordLines(m[..i], encode);
  }

  /** Storing a record under its own non-empty id keeps the map storable. */
  lemma PutStorable(m: Links, row: Link)
    requires Storable(m) && !EmptyId(row.id)
    ensures Storable(Put(m, row.id, row))
  {
    var r := Put(m, row.id, row);
    assert forall i :: 0 <= i < |r| ==> (i < |m| && r[i] == m[i]) || r[i] == (row.id, row);
  }

  /** Removing a record keeps the map storable. */
  lemma RemoveStorable(m: Links, id: string)
    requires Storable(m) && HasKey(m, id)
    ensures Storable(Remove(m, id))
  {
    var p := Find(m, id);
    RemovePresent(m, id);
    var r := m[..p] + m[p + 1..];
    forall i | 0 <= i < |r|
      ensures r[i].0 == r[i].1.id && !EmptyId(r[i].0)
    {
      assert r[i] == m[if i < p then i else i + 1];
    }
  }

  /** A line the read loop drops: blank after chomping, undecodable, or with an empty id. */
  predicate Skipped(raw: string, decode: string -> Option<Link>)
  {
    var line := Chomp(raw);
    line == "" || decode(line).None? || EmptyId(decode(line).value.id)
  }

  /** A dropped line leaves no trace: the file reads as if it were not there. */
  lemma {:induction false} SkippedLineInvisible(a: seq<string>, bad: string, b: seq<string>,
                                                decode: string -> Option<Link>)
    requires Skipped(bad, decode)
    ensures ReadLines(a + [bad] + b, decode) == ReadLines(a + b, decode)
  {
    var x, y := a + [bad] + b, a + b;
    if b == [] {
      assert x[..|x| - 1] == a && x[|x| - 1] == bad;
      assert ReadLines(x, decode) == ReadLine(ReadLines(a, decode), bad, decode);
      assert y == a;
    } else {
      var init := b[..|b| - 1];
      SkippedLineInvisible(a, bad, init, decode);
      assert x[..|x| - 1] == a + [bad] + init && x[|x| - 1] == b[|b| - 1];
      assert y[..|y| - 1] == a + init && y[|y| - 1] == b[|b| - 1];
      assert ReadLines(x, decode) == ReadLine(ReadLines(a + [bad] + init, decode), b[|b| - 1], decode);
      assert ReadLines(y, decode) == ReadLine(ReadLines(a + init, decode), b[|b| - 1], decode);
    }
  }

  /** A leading part of a storable map is storable and lacks the key of the entry after it. */
  lemma StorablePrefix(m: Links, n: nat)
    requires Storable(m) && n < |m|
    ensures Storable(m[..n]) && !HasKey(m[..n], m[n].0)
  {
    UniquePrefix(m, n);
    var init := m[..n];
    assert forall q :: 0 <= q < |init| ==> init[q] == m[q];
  }

  /** Reading the line of the last record after the lines of the others completes the map. */
  lemma ReadLastRecordLine(m: Links, encode: Link -> string, decode: string -> Option<Link>)
    requires LineCodec(encode, decode) && Storable(m) && m != []
    ensures var n := |m| - 1; ReadLine(m[..n], encode(m[n].1), decode) == m
  {
    var n := |m| - 1;
    var row := m[n].1;
    StorablePrefix(m, n);
    assert decode(encode(row)) == Some(row) && SingleLine(encode(row));
    assert Chomp(encode(row)) == encode(row);
    PutAbsent(m[..n], row.id, row);
    assert m[..n] + [m[n]] == m;
  }

  /** Reading back the lines of a storable map rebuilds it entry by entry. */
  lemma {:induction false} ReadRecordLines(m: Links, encode: Link -> string, decode: string -> Option<Link>)
    requires LineCodec(encode, decode) && Storable(m)
    ensures ReadLines(RecordLines(m, encode), decode) == m
  {
    if m != [] {
      var n := |m| - 1;
      var ls := RecordLines(m, encode);
      assert ls[..n] == RecordLines(m[..n], encode);
      assert ReadLines(ls, decode) == ReadLine(ReadLines(ls[..n], decode), ls[n], decode);
      StorablePrefix(m, n);
      ReadRecordLines(m[..n], encode, decode);
      ReadLastRecordLine(m, encode, decode);
    }
  }

  /** Writing a storable map and reading the file back gives the same ordered map. */
  lemma ParseSerialize(files: map<string, string>, path: string, m: Links,
                       encode: Link -> string, decode: string -> Option<Link>)
    requires LineCodec(encode, decode) && Storable(m)
    ensures ParseFile(files[path := Serialize(m, encode)], path, decode) == m
  {
    var ls := RecordLines(m, encode);
    forall i | 0 <= i < |ls|
      ensures '\n' !in ls[i]
    {
      assert SingleLine(encode(m[i].1));
    }
    LinesUnlines(ls);
    ReadRecordLines(m, encode, decode);
  }
}
