/**
 * The category file `categories.txt`: one `id TAB name LF` line per
 * category, in insertion order. `Parse` is what `read_categories` returns
 * for a file's contents, `Serialize` what `write_categories` leaves in it.
 */
module CategoryFile {
  import opened PhpStrings
  import opened TextLines
  import opened OrderedMap

  /** `[id => name]`, in file order. */
  type Categories = OMap<string>

  /** An entry that a write followed by a read gives back unchanged. */
  predicate StorableEntry(id: string, name: string)
  {
    && id != "" && '\t' !in id && '\n' !in id
    && name != "" && '\n' !in name && name[|name| - 1] != '\r'
  }

  /** A category map that a write followed by a read gives back unchanged. */
  ghost predicate Storable(m: Categories)
  {
    UniqueKeys(m) && forall i :: 0 <= i < |m| ==> StorableEntry(m[i].0, m[i].1)
  }

  /** `array_pad(explode("\t", $line, 2), 2, '')`: split at the first TAB only. */
  function SplitAtTab(line: string): (string, string)
  {
    var p := IndexOfChar(line, '\t');
    if p < |line| then (line[..p], line[p + 1..]) else (line, "")
  }

  /** The line written for one category, without its LF. */
  function EntryLine(id: string, name: string): string
  {
    id + "\t" + name
  }

  function EntryLines(m: Categories): seq<string>
  {
    seq(|m|, i requires 0 <= i < |m| => EntryLine(m[i].0, m[i].1))
  }

  /** The contents `write_categories($m)` leaves in the file. */
  function Serialize(m: Categories): string
  {
    Unlines(EntryLines(m))
  }

  /** One pass of the `read_categories` loop over a raw line. */
  function ReadLine(acc: Categories, raw: string): Categories
  {
    var line := Chomp(raw);
    if line == "" then acc
    else
      var (id, name) := SplitAtTab(line);
      if id != "" && name != "" then Put(acc, id, name) else acc
  }

  /** Splitting a chomped line yields a storable entry whenever both fields are present. */
  lemma SplitStorable(line: string)
    requires '\n' !in line && (line == [] || line[|line| - 1] !in LineEnd)
    ensures var (id, name) := SplitAtTab(line); id != "" && name != "" ==> StorableEntry(id, name)
  {
    var p := IndexOfChar(line, '\t');
    if p < |line| {
      var id, name := line[..p], line[p + 1..];
      assert forall k :: 0 <= k < |id| ==> id[k] == line[k];
      assert forall k :: 0 <= k < |name| ==> name[k] == line[p + 1 + k];
    }
  }

  /** Adding or replacing a storable entry keeps the map storable. */
  lemma PutStorable(m: Categories, id: string, name: string)
    requires Storable(m) && StorableEntry(id, name)
    ensures Storable(Put(m, id, name))
  {
    var r := Put(m, id, name);
    assert forall i :: 0 <= i < |r| ==> (i < |m| && r[i] == m[i]) || r[i] == (id, name);
  }

  /** Removing an entry keeps the map storable. */
  lemma RemoveStorable(m: Categories, id: string)
    requires Storable(m) && HasKey(m, id)
    ensures Storable(Remove(m, id))
  {
    var p := Find(m, id);
    RemovePresent(m, id);
    var r := m[..p] + m[p + 1..];
    forall i | 0 <= i < |r|
      ensures StorableEntry(r[i].0, r[i].1)
    {
      assert r[i] == m[if i < p then i else i + 1];
    }
  }

  /** A read step keeps the map storable. */
  lemma ReadLineStorable(acc: Categories, raw: string)
    requires Storable(acc) && '\n' !in raw
    ensures Storable(ReadLine(acc, raw))
  {
    var line := Chomp(raw);
    assert forall k :: 0 <= k < |line| ==> line[k] == raw[k];
    SplitStorable(line);
    var (id, name) := SplitAtTab(line);
    if line != "" && id != "" && name != "" {
      PutStorable(acc, id, name);
    }
  }

  /** The map the `read_categories` loop has built after the given lines. */
  function ReadLines(ls: seq<string>): Categories
  {
    if ls == [] then [] else ReadLine(ReadLines(ls[..|ls| - 1]), ls[|ls| - 1])
  }

  /** Reading one more line is one more pass of the loop. */
  lemma ReadLinesSnoc(ls: seq<string>, i: nat)
    requires i < |ls|
    ensures ReadLines(ls[..i + 1]) == ReadLine(ReadLines(ls[..i]), ls[i])
  {
    assert ls[..i + 1][..i] == ls[..i];
  }

  /** `read_categories()` for the given file contents. */
  function Parse(content: string): Categories
  {
    ReadLines(Lines(content))
  }

  /** Whatever lines are read, the map built from them is storable. */
  lemma {:induction false} ReadLinesStorable(ls: seq<string>)
    requires forall i :: 0 <= i < |ls| ==> '\n' !in ls[i]
    ensures Storable(ReadLines(ls))
  {
    if ls != [] {
      var init := ls[..|ls| - 1];
      ReadLinesStorable(init);
      ReadLineStorable(ReadLines(init), ls[|ls| - 1]);
    }
  }

  /**
   * Whatever `categories.txt` holds, the map `read_categories` returns has
   * unique, non-empty, TAB-free ids and non-empty names.
   */
  lemma ParseStorable(content: string)
    ensures Storable(Parse(content))
  {
    LinesSingle(content);
    ReadLinesStorable(Lines(content));
  }

  /** The lines of a storable map carry no LF of their own. */
  lemma EntryLinesSingle(m: Categories)
    requires Storable(m)
    ensures forall i :: 0 <= i < |m| ==> '\n' !in EntryLines(m)[i]
  {
    forall i | 0 <= i < |m|
      ensures '\n' !in EntryLines(m)[i]
    {
      assert StorableEntry(m[i].0, m[i].1);
    }
  }

  /** Reading the line of an entry whose id is new appends that entry. */
  lemma ReadEntryLine(acc: Categories, id: string, name: string)
    requires StorableEntry(id, name) && !HasKey(acc, id)
    ensures ReadLine(acc, EntryLine(id, name)) == acc + [(id, name)]
  {
    var line := EntryLine(id, name);
    assert Chomp(line) == line;
    IndexOfCharAbsent(id, "\t" + name, '\t');
    assert line == id + ("\t" + name);
    assert line[|id| + 1..] == name;
  }

  lemma EntryLinesPrefix(m: Categories, n: nat)
    requires n <= |m|
    ensures EntryLines(m)[..n] == EntryLines(m[..n])
  {
  }

  /** A leading part of a storable map is storable. */
  lemma StorablePrefix(m: Categories, n: nat)
    requires Storable(m) && n < |m|
    ensures Storable(m[..n])
  {
    UniquePrefix(m, n);
  }

  /** The entry after a leading part of a storable map is storable and has a key the part lacks. */
  lemma NextEntryFresh(m: Categories, n: nat)
    requires Storable(m) && n < |m|
    ensures !HasKey(m[..n], m[n].0) && StorableEntry(m[n].0, m[n].1)
  {
    UniquePrefix(m, n);
  }

  /** Reading the line of the last entry after the lines of the others completes the map. */
  lemma ReadLastEntryLine(m: Categories)
    requires Storable(m) && m != []
    ensures var n := |m| - 1; ReadLine(m[..n], EntryLine(m[n].0, m[n].1)) == m
  {
    var n := |m| - 1;
    NextEntryFresh(m, n);
    ReadEntryLine(m[..n], m[n].0, m[n].1);
    assert m[..n] + [m[n]] == m;
  }

  /** Reading back the lines of a storable map rebuilds it entry by entry. */
  lemma {:induction false} ReadEntryLines(m: Categories)
    requires Storable(m)
    ensures ReadLines(EntryLines(m)) == m
  {
    if m != [] {
      var n := |m| - 1;
      var ls := EntryLines(m);
      EntryLinesPrefix(m, n);
      assert ReadLines(ls) == ReadLine(ReadLines(EntryLines(m[..n])), ls[n]);
      StorablePrefix(m, n);
      ReadEntryLines(m[..n]);
      ReadLastEntryLine(m);
    }
  }

  /** Writing a storable map and reading the file back gives the same ordered map. */
  lemma ParseSerialize(m: Categories)
    requires Storable(m)
    ensures Parse(Serialize(m)) == m
  {
    LinesUnlines(EntryLines(m));
    ReadEntryLines(m);
  }

  /** Rewriting what was read is stable: a second read sees the same map. */
  lemma ReadWriteStable(content: string)
    ensures Parse(Serialize(Parse(content))) == Parse(content)
  {
    ParseStorable(content);
    ParseSerialize(Parse(content));
  }
}
