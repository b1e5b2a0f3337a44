/**
 * The link list's storage: `categories.txt` and one link file per
 * category inside the data directory, and the operations that read,
 * rewrite and render them. Every mutation reads a file into an ordered
 * map, changes one entry and rewrites the whole file.
 */
module Store {
  import opened Wrappers
  import opened PhpStrings
  import opened TextLines
  import opened OrderedMap
  import opened Slug
  import opened Html
  import opened Query
  import opened Sequences
  import CategoryFile
  import LinkFile

  type Link = LinkFile.Link

  /** `cat_file($catId)`: the name of a category's link file inside the data directory. */
  function CatFile(catId: string): string
  {
    "links_" + catId + ".txt"
  }

  /** Distinct categories never share a link file. */
  lemma CatFileInjective(a: string, b: string)
    ensures CatFile(a) == CatFile(b) ==> a == b
  {
    if CatFile(a) == CatFile(b) {
      assert |a| == |b|;
      assert a == CatFile(a)[6..6 + |a|];
      assert b == CatFile(b)[6..6 + |b|];
    }
  }

  /** `isset($cats[$id]) || file_exists(cat_file($id))`: a candidate id `add_category` must skip. */
  predicate Taken(cats: CategoryFile.Categories, files: map<string, string>, id: string)
  {
    HasKey(cats, id) || CatFile(id) in files
  }

  /** `$orig . '-' . $i`. */
  function Candidate(orig: string, i: nat): string
  {
    orig + "-" + NatToString(i)
  }

  /**
   * The id `add_category` settles on: `orig` when it is free, otherwise
   * `orig-N` for the smallest N >= 2 that is free.
   */
  ghost predicate FirstFree(cats: CategoryFile.Categories, files: map<string, string>, orig: string, id: string)
  {
    && !Taken(cats, files, id)
    && (|| id == orig
        || (&& Taken(cats, files, orig)
            && exists n: nat :: 2 <= n && id == Candidate(orig, n)
                 && forall j :: 2 <= j < n ==> Taken(cats, files, Candidate(orig, j))))
  }

  /** At most one id satisfies `FirstFree`: the probing is deterministic. */
  lemma FirstFreeUnique(cats: CategoryFile.Categories, files: map<string, string>, orig: string, a: string, b: string)
    requires FirstFree(cats, files, orig, a) && FirstFree(cats, files, orig, b)
    ensures a == b
  {
    if a != orig && b != orig {
      var n :| 2 <= n && a == Candidate(orig, n) && forall j :: 2 <= j < n ==> Taken(cats, files, Candidate(orig, j));
      var m :| 2 <= m && b == Candidate(orig, m) && forall j :: 2 <= j < m ==> Taken(cats, files, Candidate(orig, j));
    }
  }

  /** A second category whose name slugifies like an existing one is suffixed `-2` when that is free. */
  lemma CollisionTakesSuffixTwo(cats: CategoryFile.Categories, files: map<string, string>, orig: string, id: string)
    requires Taken(cats, files, orig) && !Taken(cats, files, Candidate(orig, 2))
    requires FirstFree(cats, files, orig, id)
    ensures id == orig + "-2"
  {
    assert FirstFree(cats, files, orig, Candidate(orig, 2));
    FirstFreeUnique(cats, files, orig, id, Candidate(orig, 2));
    assert NatToString(2) == "2";
  }

  /** Appending `-N` to text made of `a-z`, `0-9` and `-` keeps it so. */
  lemma CandidateShape(orig: string, n: nat)
    requires forall k :: 0 <= k < |orig| ==> IsSlugChar(orig[k]) || orig[k] == '-'
    ensures var c := Candidate(orig, n); forall k :: 0 <= k < |c| ==> IsSlugChar(c[k]) || c[k] == '-'
  {
    var digits := NatToString(n);
    var c := orig + "-" + digits;
    forall k | 0 <= k < |c|
      ensures IsSlugChar(c[k]) || c[k] == '-'
    {
      if k < |orig| {
        assert c[k] == orig[k];
      } else if k > |orig| {
        assert c[k] == digits[k - |orig| - 1];
      }
    }
  }

  /** A chosen id holds only `a-z`, `0-9` and `-`, like the slug it extends. */
  lemma FirstFreeShape(cats: CategoryFile.Categories, files: map<string, string>, name: string, id: string)
    requires FirstFree(cats, files, Slugify(name), id)
    ensures forall k :: 0 <= k < |id| ==> IsSlugChar(id[k]) || id[k] == '-'
  {
    var orig := Slugify(name);
    SlugifyShape(name);
    if id != orig {
      var n :| 2 <= n && id == Candidate(orig, n) && forall j :: 2 <= j < n ==> Taken(cats, files, Candidate(orig, j));
      CandidateShape(orig, n);
    }
  }

  /** An upper bound on the lengths of a finite set of names. */
  ghost function MaxLen(names: set<string>): (m: nat)
    ensures forall x :: x in names ==> |x| <= m
  {
    if names == {} then 0
    else
      var x :| x in names;
      var r := MaxLen(names - {x});
      if |x| > r then |x| else r
  }

  /** A number whose decimal string has at most k digits is below 10^k. */
  lemma NatToStringBound(n: nat, k: nat)
    ensures |NatToString(n)| <= k ==> n < Pow10(k)
  {
    if n >= Pow10(k) {
      NatToStringLength(n, k);
    }
  }

  /** The category ids and the file names in the data directory. */
  ghost function Names(cats: CategoryFile.Categories, files: map<string, string>): set<string>
  {
    (set k | k in Keys(cats)) + files.Keys
  }

  /** A taken id is no longer than the longest key or file name. */
  lemma TakenIsShort(cats: CategoryFile.Categories, files: map<string, string>, id: string)
    ensures Taken(cats, files, id) ==> |id| <= MaxLen(Names(cats, files))
  {
    var names := Names(cats, files);
    if HasKey(cats, id) {
      assert Keys(cats)[Find(cats, id)] == id;
      assert id in names;
    } else if CatFile(id) in files {
      assert CatFile(id) in names;
    }
  }

  /** While the probe is still looking, its counter stays below a bound fixed by the names already taken. */
  lemma ProbeBounded(orig: string, i: nat, id: string, len: nat)
    requires 2 <= i
    requires id == if i == 2 then orig else Candidate(orig, i - 1)
    requires |id| <= len
    ensures i <= Pow10(len) + 1
  {
    if i > 2 {
      NatToStringBound(i - 1, len);
    }
  }

  /** A bound on the probe's counter fixed by the names already taken. */
  ghost function ProbeBound(cats: CategoryFile.Categories, files: map<string, string>): nat
  {
    Pow10(MaxLen(Names(cats, files))) + 1
  }

  /** While the current candidate is taken, the counter has not passed the bound. */
  lemma TakenWithinBound(cats: CategoryFile.Categories, files: map<string, string>, orig: string, i: nat, id: string)
    requires 2 <= i
    requires id == if i == 2 then orig else Candidate(orig, i - 1)
    requires Taken(cats, files, id)
    ensures i <= ProbeBound(cats, files)
  {
    TakenIsShort(cats, files, id);
    ProbeBounded(orig, i, id, MaxLen(Names(cats, files)));
  }

  /** What the probe has learnt before trying counter `i`: every earlier candidate was taken. */
  ghost predicate Probed(cats: CategoryFile.Categories, files: map<string, string>, orig: string, i: nat)
  {
    && (i > 2 ==> Taken(cats, files, orig))
    && forall j :: 2 <= j < i - 1 ==> Taken(cats, files, Candidate(orig, j))
  }

  lemma ProbeStep(cats: CategoryFile.Categories, files: map<string, string>, orig: string, i: nat, id: string)
    requires 2 <= i && Probed(cats, files, orig, i)
    requires id == if i == 2 then orig else Candidate(orig, i - 1)
    requires Taken(cats, files, id)
    ensures Probed(cats, files, orig, i + 1)
  {
  }

  lemma ProbeDone(cats: CategoryFile.Categories, files: map<string, string>, orig: string, i: nat, id: string)
    requires 2 <= i && Probed(cats, files, orig, i)
    requires id == if i == 2 then orig else Candidate(orig, i - 1)
    requires !Taken(cats, files, id)
    ensures FirstFree(cats, files, orig, id)
  {
    if i > 2 {
      assert 2 <= i - 1 && id == Candidate(orig, i - 1);
    }
  }

  /** `trim($newName) ?: $cats[$id]`: "" and "0" are falsy, so both keep the old name. */
  function RenamedTo(oldName: string, newName: string): string
  {
    var t := Trim(newName);
    if Truthy(t) then t else oldName
  }

  /** The record `add_link` builds. */
  function NewLink(id: string, title: string, url: string, desc: string, pin: bool, now: int): Link
  {
    LinkFile.Link(id, Trim(title), Trim(url), Trim(desc), now, now, pin)
  }

  /** The record `update_link` leaves: five fields overwritten, `id` and `created` kept. */
  function Edited(row: Link, title: string, url: string, desc: string, pin: bool, now: int): Link
  {
    row.(title := Trim(title), url := Trim(url), desc := Trim(desc), pin := pin, updated := now)
  }

  /** The section `render_linklist` emits for category `cid`. */
  function CategorySection(cats: CategoryFile.Categories, files: map<string, string>, decode: string -> Option<Link>,
                           showDesc: bool, limit: Option<int>, order: string, cid: string): Section
  {
    RenderSection(DisplayName(cats, cid), LinkFile.ParseFile(files, CatFile(cid), decode), showDesc, limit, order)
  }

  /** The sections `render_linklist` emits for the categories `ids`, one per id, in order. */
  function Page(cats: CategoryFile.Categories, ids: seq<string>, files: map<string, string>,
                decode: string -> Option<Link>, showDesc: bool, limit: Option<int>, order: string): seq<Section>
  {
    Map(SectionOf(cats, files, decode, showDesc, limit, order), ids)
  }

  /** `CategorySection` with everything but the category fixed, as one function value. */
  function SectionOf(cats: CategoryFile.Categories, files: map<string, string>, decode: string -> Option<Link>,
                     showDesc: bool, limit: Option<int>, order: string): string -> Section
  {
    (cid: string) => CategorySection(cats, files, decode, showDesc, limit, order, cid)
  }

  /**
   * Section j of the page belongs to category `ids[j]`: its heading is the
   * category's escaped display name and its items come from that
   * category's own link file.
   */
  lemma PageSections(cats: CategoryFile.Categories, ids: seq<string>, files: map<string, string>,
                     decode: string -> Option<Link>, showDesc: bool, limit: Option<int>, order: string)
    ensures var page := Page(cats, ids, files, decode, showDesc, limit, order);
      && |page| == |ids|
      && forall j :: 0 <= j < |ids| ==>
           page[j] == RenderSection(DisplayName(cats, ids[j]), LinkFile.ParseFile(files, CatFile(ids[j]), decode),
                                    showDesc, limit, order)
  {
    MapIndex(SectionOf(cats, files, decode, showDesc, limit, order), ids);
  }

  /** A trimmed, non-empty name with no LF inside is a name a write followed by a read keeps. */
  lemma TrimmedNameStorable(name: string)
    requires Trim(name) != "" && '\n' !in Trim(name)
    ensures var n := Trim(name); n[|n| - 1] != '\r'
  {
  }

  /**
   * After `add_category`, reading `categories.txt` back gives the old
   * categories followed by the new entry, unless the slug was empty: an
   * entry with an empty id is written, but `read_categories` skips it.
   */
  lemma AddCategoryReadBack(m: CategoryFile.Categories, files: map<string, string>, name: string, id: string)
    requires CategoryFile.Storable(m)
    requires Trim(name) != "" && '\n' !in Trim(name)
    requires FirstFree(m, files, Slugify(Trim(name)), id)
    ensures var n := Trim(name);
      CategoryFile.Parse(CategoryFile.Serialize(m + [(id, n)])) == if id == "" then m else m + [(id, n)]
  {
    var n := Trim(name);
    TrimmedNameStorable(name);
    if id != "" {
      AddedEntryStorable(m, files, name, id);
      CategoryFile.ParseSerialize(m + [(id, n)]);
    } else {
      EmptyIdEntryDropped(m, n);
    }
  }

  /** The map with a freshly chosen, non-empty id appended is one a write followed by a read keeps. */
  lemma AddedEntryStorable(m: CategoryFile.Categories, files: map<string, string>, name: string, id: string)
    requires CategoryFile.Storable(m)
    requires Trim(name) != "" && '\n' !in Trim(name)
    requires FirstFree(m, files, Slugify(Trim(name)), id) && id != ""
    ensures CategoryFile.Storable(m + [(id, Trim(name))])
  {
    var n := Trim(name);
    TrimmedNameStorable(name);
    FirstFreeShape(m, files, n, id);
    NoTabOrLineFeed(id);
    assert CategoryFile.StorableEntry(id, n);
    assert !HasKey(m, id);
    CategoryFile.PutStorable(m, id, n);
    PutAbsent(m, id, n);
  }

  /** Text made of `a-z`, `0-9` and `-` holds neither a TAB nor an LF. */
  lemma NoTabOrLineFeed(id: string)
    requires forall k :: 0 <= k < |id| ==> IsSlugChar(id[k]) || id[k] == '-'
    ensures '\t' !in id && '\n' !in id
  {
    forall k | 0 <= k < |id|
      ensures id[k] != '\t' && id[k] != '\n'
    {
      assert IsSlugChar(id[k]) || id[k] == '-';
    }
  }

  /** An entry written with an empty id comes back as nothing: its line starts with the TAB. */
  lemma EmptyIdEntryDropped(m: CategoryFile.Categories, n: string)
    requires CategoryFile.Storable(m)
    requires n != "" && '\n' !in n && n[|n| - 1] != '\r'
    ensures CategoryFile.Parse(CategoryFile.Serialize(m + [("", n)])) == m
  {
    var line := CategoryFile.EntryLine("", n);
    var ls := CategoryFile.EntryLines(m + [("", n)]);
    assert ls == CategoryFile.EntryLines(m) + [line];
    CategoryFile.EntryLinesSingle(m);
    assert '\n' !in line;
    LinesUnlines(ls);
    assert ls[..|ls| - 1] == CategoryFile.EntryLines(m);
    assert CategoryFile.ReadLines(ls) == CategoryFile.ReadLine(CategoryFile.ReadLines(CategoryFile.EntryLines(m)), line);
    CategoryFile.ReadEntryLines(m);
    assert Chomp(line) == line;
    assert IndexOfChar(line, '\t') == 0;
  }

  /**
   * After `rename_category`, reading back gives the same categories in the
   * same order, with only the renamed entry's name changed; a new name
   * that trims to "" or "0" leaves the map as it was.
   */
  lemma RenameCategoryReadBack(m: CategoryFile.Categories, id: string, newName: string)
    requires CategoryFile.Storable(m) && HasKey(m, id)
    requires '\n' !in Trim(newName)
    ensures var p, oldName := Find(m, id), Get(m, id).value;
      var renamed := Put(m, id, RenamedTo(oldName, newName));
      && CategoryFile.Parse(CategoryFile.Serialize(renamed)) == m[p := (id, RenamedTo(oldName, newName))]
      && (!Truthy(Trim(newName)) ==> renamed == m)
  {
    var p := Find(m, id);
    var nn := RenamedTo(m[p].1, newName);
    if Truthy(Trim(newName)) {
      TrimmedNameStorable(newName);
    }
    assert CategoryFile.StorableEntry(id, nn);
    CategoryFile.PutStorable(m, id, nn);
    CategoryFile.ParseSerialize(Put(m, id, nn));
  }

  /**
   * Reading a `categories.txt` that `write_categories` wrote, renaming a
   * category to its current, already trimmed name and writing it back
   * leaves the file byte-identical.
   */
  lemma RenameToSameNameIsIdentity(m0: CategoryFile.Categories, id: string)
    requires CategoryFile.Storable(m0)
    requires HasKey(m0, id) && Trim(Get(m0, id).value) == Get(m0, id).value
    ensures var file := CategoryFile.Serialize(m0);
      var m := CategoryFile.Parse(file);
      m == m0 && CategoryFile.Serialize(Put(m, id, RenamedTo(Get(m, id).value, Get(m, id).value))) == file
  {
    CategoryFile.ParseSerialize(m0);
    var p := Find(m0, id);
    assert m0[p := (id, m0[p].1)] == m0;
  }

  /**
   * After `delete_category`, reading back gives the other categories in
   * their order, the deleted category's links are gone, and every other
   * category's link file is untouched.
   */
  lemma DeleteCategoryReadBack(m: CategoryFile.Categories, files: map<string, string>, id: string,
                               decode: string -> Option<Link>)
    requires CategoryFile.Storable(m) && HasKey(m, id)
    ensures var p := Find(m, id);
      CategoryFile.Parse(CategoryFile.Serialize(Remove(m, id))) == m[..p] + m[p + 1..]
    ensures LinkFile.ParseFile(files - {CatFile(id)}, CatFile(id), decode) == []
    ensures forall other :: other != id ==>
      LinkFile.ParseFile(files - {CatFile(id)}, CatFile(other), decode) == LinkFile.ParseFile(files, CatFile(other), decode)
  {
    RemovePresent(m, id);
    CategoryFile.RemoveStorable(m, id);
    CategoryFile.ParseSerialize(Remove(m, id));
    forall other | other != id
      ensures LinkFile.ParseFile(files - {CatFile(id)}, CatFile(other), decode) == LinkFile.ParseFile(files, CatFile(other), decode)
    {
      CatFileInjective(id, other);
      if CatFile(other) in files {
        assert (files - {CatFile(id)})[CatFile(other)] == files[CatFile(other)];
      }
    }
  }

  /** After `add_link` with a fresh id, reading the category back gives the old links and the new record last. */
  lemma AddLinkReadBack(m: LinkFile.Links, files: map<string, string>, path: string,
                        id: string, title: string, url: string, desc: string, pin: bool, now: int,
                        encode: Link -> string, decode: string -> Option<Link>)
    requires LinkFile.Storable(m) && LinkFile.LineCodec(encode, decode)
    requires !HasKey(m, id) && !LinkFile.EmptyId(id)
    ensures var row := NewLink(id, title, url, desc, pin, now);
      && LinkFile.ParseFile(files[path := LinkFile.Serialize(Put(m, id, row), encode)], path, decode) == m + [(id, row)]
      && row.created == row.updated == now
  {
    var row := NewLink(id, title, url, desc, pin, now);
    PutAbsent(m, id, row);
    LinkFile.PutStorable(m, row);
    LinkFile.ParseSerialize(files, path, Put(m, id, row), encode, decode);
  }

  /**
   * After `update_link`, reading back gives the same links in the same
   * order; the edited record keeps its id and creation time and carries
   * the new update time.
   */
  lemma UpdateLinkReadBack(m: LinkFile.Links, files: map<string, string>, path: string,
                           id: string, title: string, url: string, desc: string, pin: bool, now: int,
                           encode: Link -> string, decode: string -> Option<Link>)
    requires LinkFile.Storable(m) && LinkFile.LineCodec(encode, decode) && HasKey(m, id)
    ensures var p, old_ := Find(m, id), Get(m, id).value;
      var row := Edited(old_, title, url, desc, pin, now);
      && LinkFile.ParseFile(files[path := LinkFile.Serialize(Put(m, id, row), encode)], path, decode) == m[p := (id, row)]
      && row.id == old_.id == id && row.created == old_.created && row.updated == now
  {
    var p := Find(m, id);
    var row := Edited(m[p].1, title, url, desc, pin, now);
    assert m[p].0 == m[p].1.id;
    PutPresent(m, id, row);
    LinkFile.PutStorable(m, row);
    LinkFile.ParseSerialize(files, path, Put(m, id, row), encode, decode);
  }

  /** After `delete_link`, reading back gives the other links in their order. */
  lemma DeleteLinkReadBack(m: LinkFile.Links, files: map<string, string>, path: string, id: string,
                           encode: Link -> string, decode: string -> Option<Link>)
    requires LinkFile.Storable(m) && LinkFile.LineCodec(encode, decode) && HasKey(m, id)
    ensures var p := Find(m, id);
      LinkFile.ParseFile(files[path := LinkFile.Serialize(Remove(m, id), encode)], path, decode) == m[..p] + m[p + 1..]
  {
    RemovePresent(m, id);
    LinkFile.RemoveStorable(m, id);
    LinkFile.ParseSerialize(files, path, Remove(m, id), encode, decode);
  }

  /** The file system state `linklist.php` works on. */
  class LinkList {
    /** The contents of `categories.txt`. */
    var catFile: string
    /** The link files present in the data directory, by name, with their contents. */
    var linkFiles: map<string, string>
    /** `json_encode($row, JSON_UNESCAPED_UNICODE)`. */
    const encode: Link -> string
    /** `json_decode($line, true)`, when it yields an array. */
    const decode: string -> Option<Link>

    constructor (catFile: string, linkFiles: map<string, string>,
                 encode: Link -> string, decode: string -> Option<Link>)
      ensures this.catFile == catFile && this.linkFiles == linkFiles
      ensures this.encode == encode && this.decode == decode
    {
      this.catFile := catFile;
      this.linkFiles := linkFiles;
      this.encode := encode;
      this.decode := decode;
    }

    /** `read_categories()`. */
    method ReadCategories() returns (cats: CategoryFile.Categories)
      ensures cats == CategoryFile.Parse(catFile)
    {
      var lines := Lines(catFile);
      cats := [];
      var i := 0;
      while i < |lines|
        invariant 0 <= i <= |lines|
        invariant cats == CategoryFile.ReadLines(lines[..i])
      {
        CategoryFile.ReadLinesSnoc(lines, i);
        ghost var before := cats;
        var line := Chomp(lines[i]);
        if line != "" {
          var (id, name) := CategoryFile.SplitAtTab(line);
          if id != "" && name != "" {
            cats := Put(cats, id, name);
          }
        }
        assert cats == CategoryFile.ReadLine(before, lines[i]);
        i := i + 1;
      }
      assert lines[..|lines|] == lines;
    }

    /** `write_categories($cats)`: truncate, then one line per entry. */
    method WriteCategories(cats: CategoryFile.Categories)
      modifies this`catFile
      ensures catFile == CategoryFile.Serialize(cats)
    {
      catFile := "";
      var i := 0;
      while i < |cats|
        invariant 0 <= i <= |cats|
        invariant catFile == Unlines(CategoryFile.EntryLines(cats[..i]))
      {
        var (id, name) := cats[i];
        assert CategoryFile.EntryLines(cats[..i + 1])[..i] == CategoryFile.EntryLines(cats[..i]);
        catFile := catFile + (id + "\t" + name) + "\n";
        i := i + 1;
      }
      assert cats[..|cats|] == cats;
    }

    /**
     * The probing loop of `add_category`: try `orig`, then `orig-2`,
     * `orig-3`, ... until neither the category list nor the data
     * directory has it.
     */
    method FreeId(cats: CategoryFile.Categories, orig: string) returns (id: string)
      ensures FirstFree(cats, linkFiles, orig, id)
    {
      id := orig;
      var i: nat := 2;
      ghost var bound := ProbeBound(cats, linkFiles);
      while HasKey(cats, id) || CatFile(id) in linkFiles
        invariant 2 <= i <= bound + 1
        invariant id == if i == 2 then orig else Candidate(orig, i - 1)
        invariant Probed(cats, linkFiles, orig, i)
        decreases bound + 1 - i
      {
        TakenWithinBound(cats, linkFiles, orig, i, id);
        ProbeStep(cats, linkFiles, orig, i, id);
        id := Candidate(orig, i);
        i := i + 1;
      }
      ProbeDone(cats, linkFiles, orig, i, id);
    }

    /** `add_category($name)`. */
    method AddCategory(name: string) returns (r: Option<string>)
      modifies this`catFile, this`linkFiles
      ensures var n := Trim(name);
        n == "" ==> r == None && catFile == old(catFile) && linkFiles == old(linkFiles)
      ensures var n, cats := Trim(name), CategoryFile.Parse(old(catFile));
        n != "" ==>
          && r.Some?
          && FirstFree(cats, old(linkFiles), Slugify(n), r.value)
          && catFile == CategoryFile.Serialize(cats + [(r.value, n)])
          && linkFiles == old(linkFiles)[CatFile(r.value) := ""]
    {
      var n := Trim(name);
      if n == "" {
        return None;
      }
      var cats := ReadCategories();
      var id := FreeId(cats, Slugify(n));
      assert FirstFree(cats, old(linkFiles), Slugify(n), id);
      var path := CatFile(id);
      assert !HasKey(cats, id);
      PutAbsent(cats, id, n);
      var updated := Put(cats, id, n);
      WriteCategories(updated);
      assert catFile == CategoryFile.Serialize(cats + [(id, n)]);
      linkFiles := linkFiles[path := ""];
      r := Some(id);
    }

    /** `rename_category($id, $newName)`. */
    method RenameCategory(id: string, newName: string) returns (ok: bool)
      modifies this`catFile
      ensures var cats := CategoryFile.Parse(old(catFile));
        && ok == HasKey(cats, id)
        && (ok ==> catFile == CategoryFile.Serialize(Put(cats, id, RenamedTo(Get(cats, id).value, newName))))
        && (!ok ==> catFile == old(catFile))
    {
      var cats := ReadCategories();
      if !HasKey(cats, id) {
        return false;
      }
      cats := Put(cats, id, RenamedTo(Get(cats, id).value, newName));
      WriteCategories(cats);
      ok := true;
    }

    /** `delete_category($id)`: the entry goes, and so does the category's link file. */
    method DeleteCategory(id: string) returns (ok: bool)
      modifies this`catFile, this`linkFiles
      ensures var cats := CategoryFile.Parse(old(catFile));
        && ok == HasKey(cats, id)
        && (ok ==> catFile == CategoryFile.Serialize(Remove(cats, id))
                   && linkFiles == old(linkFiles) - {CatFile(id)})
        && (!ok ==> catFile == old(catFile) && linkFiles == old(linkFiles))
    {
      var cats := ReadCategories();
      if !HasKey(cats, id) {
        return false;
      }
      cats := Remove(cats, id);
      WriteCategories(cats);
      if CatFile(id) in linkFiles {
        linkFiles := linkFiles - {CatFile(id)};
      }
      ok := true;
    }

    /** `read_links($catId)`. */
    method ReadLinks(catId: string) returns (items: LinkFile.Links)
      ensures items == LinkFile.ParseFile(linkFiles, CatFile(catId), decode)
    {
      var path := CatFile(catId);
      items := [];
      if path !in linkFiles {
        return;
      }
      var lines := Lines(linkFiles[path]);
      var i := 0;
      while i < |lines|
        invariant 0 <= i <= |lines|
        invariant items == LinkFile.ReadLines(lines[..i], decode)
      {
        LinkFile.ReadLinesSnoc(lines, i, decode);
        ghost var before := items;
        var line := Chomp(lines[i]);
        if line != "" {
          var row := decode(line);
          if row.Some? && !LinkFile.EmptyId(row.value.id) {
            items := Put(items, row.value.id, row.value);
          }
        }
        assert items == LinkFile.ReadLine(before, lines[i], decode);
        i := i + 1;
      }
      assert lines[..|lines|] == lines;
    }

    /** `write_links($catId, $items)`: truncate (or create), then one encoded row per line. */
    method WriteLinks(catId: string, items: LinkFile.Links)
      modifies this`linkFiles
      ensures linkFiles == old(linkFiles)[CatFile(catId) := LinkFile.Serialize(items, encode)]
    {
      var path := CatFile(catId);
      linkFiles := linkFiles[path := ""];
      var i := 0;
      while i < |items|
        invariant 0 <= i <= |items|
        invariant linkFiles == old(linkFiles)[path := LinkFile.Serialize(items[..i], encode)]
      {
        LinkFile.SerializeSnoc(items, i, encode);
        linkFiles := linkFiles[path := linkFiles[path] + encode(items[i].1) + "\n"];
        i := i + 1;
      }
      assert items[..|items|] == items;
    }

    /** `add_link(...)`, with the fresh id of `uuid()` and the time of `time()` passed in. */
    method AddLink(catId: string, title: string, url: string, desc: string, pin: bool, id: string, now: int)
      modifies this`linkFiles
      ensures var items := LinkFile.ParseFile(old(linkFiles), CatFile(catId), decode);
        linkFiles == old(linkFiles)[CatFile(catId) :=
          LinkFile.Serialize(Put(items, id, NewLink(id, title, url, desc, pin, now)), encode)]
    {
      var items := ReadLinks(catId);
      items := Put(items, id, NewLink(id, title, url, desc, pin, now));
      WriteLinks(catId, items);
    }

    /** `update_link(...)`, with the time of `time()` passed in. */
    method UpdateLink(catId: string, id: string, title: string, url: string, desc: string, pin: bool, now: int)
      returns (ok: bool)
      modifies this`linkFiles
      ensures var items := LinkFile.ParseFile(old(linkFiles), CatFile(catId), decode);
        && ok == HasKey(items, id)
        && (ok ==> linkFiles == old(linkFiles)[CatFile(catId) :=
              LinkFile.Serialize(Put(items, id, Edited(Get(items, id).value, title, url, desc, pin, now)), encode)])
        && (!ok ==> linkFiles == old(linkFiles))
    {
      var items := ReadLinks(catId);
      if !HasKey(items, id) {
        return false;
      }
      items := Put(items, id, Edited(Get(items, id).value, title, url, desc, pin, now));
      WriteLinks(catId, items);
      ok := true;
    }

    /** `delete_link($catId, $id)`. */
    method DeleteLink(catId: string, id: string) returns (ok: bool)
      modifies this`linkFiles
      ensures var items := LinkFile.ParseFile(old(linkFiles), CatFile(catId), decode);
        && ok == HasKey(items, id)
        && (ok ==> linkFiles == old(linkFiles)[CatFile(catId) := LinkFile.Serialize(Remove(items, id), encode)])
        && (!ok ==> linkFiles == old(linkFiles))
    {
      var items := ReadLinks(catId);
      if !HasKey(items, id) {
        return false;
      }
      items := Remove(items, id);
      WriteLinks(catId, items);
      ok := true;
    }

    /**
     * `render_linklist($opts)` up to the markup: one section per selected
     * category, in selection order, each holding its sorted, truncated items.
     */
    method RenderLinkList(category: Option<string>, showDesc: bool, limit: Option<int>, order: string)
      returns (out: seq<Section>)
      ensures var cats := CategoryFile.Parse(catFile);
        out == Page(cats, SelectCategories(cats, category), linkFiles, decode, showDesc, limit, order)
    {
      var cats := ReadCategories();
      var ids := SelectCategories(cats, category);
      out := [];
      var j := 0;
      while j < |ids|
        invariant 0 <= j <= |ids|
        invariant out == Page(cats, ids[..j], linkFiles, decode, showDesc, limit, order)
      {
        var section := RenderCategory(cats, ids[j], showDesc, limit, order);
        MapSnoc(SectionOf(cats, linkFiles, decode, showDesc, limit, order), ids, j);
        out := out + [section];
        j := j + 1;
      }
      assert ids[..|ids|] == ids;
    }

    /** The body of `render_linklist`'s loop over categories: one category's section. */
    method RenderCategory(cats: CategoryFile.Categories, cid: string, showDesc: bool, limit: Option<int>, order: string)
      returns (section: Section)
      ensures section == RenderSection(DisplayName(cats, cid),
                                       LinkFile.ParseFile(linkFiles, CatFile(cid), decode),
                                       showDesc, limit, order)
    {
      var links := ReadLinks(cid);
      var ordered := OrderedLinks(links, order, limit);
      var items := EmitItems(ordered, showDesc);
      section := Section(Escape(DisplayName(cats, cid)), items);
    }
  }
}
