/** The change categories a watcher filters on and the actions a change
    record reports (`src/types.rs`; `src/lib.rs` carries the same two enums). */
module Types {
  import opened Base

  /** `FileNotifyChange`: one category of change to watch for. */
  datatype FileNotifyChange =
    | FileName | DirName | Attributes | Size
    | LastWrite | LastAccess | Creation | Security

  /** The discriminant of each category, a `FILE_NOTIFY_CHANGE_*` bit: exactly
      one bit is set, and it is one of the bits of `AllTags`. */
  function Tag(c: FileNotifyChange): (r: bv32)
    ensures r != 0 && r & (r - 1) == 0
    ensures r & !AllTags == 0
  {
    match c
    case FileName => 0x0000_0001
    case DirName => 0x0000_0002
    case Attributes => 0x0000_0004
    case Size => 0x0000_0008
    case LastWrite => 0x0000_0010
    case LastAccess => 0x0000_0020
    case Creation => 0x0000_0040
    case Security => 0x0000_0100
  }

  /** The union of all tags. */
  const AllTags: bv32 := 0x0000_017F

  /** The tags are nonzero, lie within `AllTags`, and no two share a bit. */
  lemma TagsAreDistinctBits(c: FileNotifyChange, d: FileNotifyChange)
    ensures Tag(c) != 0 && Tag(c) & !AllTags == 0
    ensures (Tag(c) & Tag(d) != 0) <==> c == d
  {
  }

  /** `mask` has exactly the tags of the members of `s` set, and no other bit. */
  ghost predicate Represents(mask: bv32, s: set<FileNotifyChange>) {
    && mask & !AllTags == 0
    && forall c :: (mask & Tag(c) != 0) <==> c in s
  }

  /** The OR of the tags of `fs`, folded left to right: what the loop of
      `as_u32` has accumulated after `fs`. */
  ghost function MaskOf(fs: seq<FileNotifyChange>): bv32 {
    if fs == [] then 0 else MaskOf(fs[..|fs| - 1]) | Tag(fs[|fs| - 1])
  }

  /** The members of a filter list, forgetting order and duplicates. */
  ghost function Members(fs: seq<FileNotifyChange>): set<FileNotifyChange> {
    set c | c in fs
  }

  /** `as_u32`: OR the tags of the listed categories into one filter mask. */
  method AsU32(filters: seq<FileNotifyChange>) returns (result: bv32)
    ensures result == MaskOf(filters)
    ensures Represents(result, Members(filters))
    ensures filters == [] ==> result == 0
  {
    result := 0;
    for i := 0 to |filters|
      invariant result == MaskOf(filters[..i])
    {
      assert filters[..i + 1][..i] == filters[..i];
      result := result | Tag(filters[i]);
    }
    assert filters[..|filters|] == filters;
    MaskOfRepresents(filters);
  }

  lemma OrBelowMask(a: bv32, b: bv32, t: bv32)
    ensures ((a | b) & t != 0) <==> (a & t != 0 || b & t != 0)
  {
  }

  /** The OR of two masks inside `AllTags` stays inside it. */
  lemma OrInsideAllTags(a: bv32, b: bv32)
    requires a & !AllTags == 0 && b & !AllTags == 0
    ensures (a | b) & !AllTags == 0
  {
  }

  /** ORing one more tag into a mask adds that category to the set it represents. */
  lemma RepresentsAdd(m: bv32, s: set<FileNotifyChange>, d: FileNotifyChange)
    requires Represents(m, s)
    ensures Represents(m | Tag(d), s + {d})
  {
    forall c ensures ((m | Tag(d)) & Tag(c) != 0) <==> c in s + {d} {
      assert (m & Tag(c) != 0) <==> c in s;
      TagsAreDistinctBits(d, c);
      OrBelowMask(m, Tag(d), Tag(c));
    }
    TagsAreDistinctBits(d, d);
    OrInsideAllTags(m, Tag(d));
  }

  /** The folded mask sets the tag of every listed category and nothing else. */
  lemma {:induction false} MaskOfRepresents(fs: seq<FileNotifyChange>)
    ensures Represents(MaskOf(fs), Members(fs))
  {
    if fs == [] {
      assert Members(fs) == {};
    } else {
      var init, last := fs[..|fs| - 1], fs[|fs| - 1];
      MaskOfRepresents(init);
      assert fs == init + [last];
      assert Members(fs) == Members(init) + {last};
      RepresentsAdd(MaskOf(init), Members(init), last);
    }
  }

  /** Two masks inside `AllTags` that agree on each of its eight bits are equal. */
  lemma SameTagBits(m1: bv32, m2: bv32)
    requires m1 & !AllTags == 0 && m2 & !AllTags == 0
    requires (m1 & 0x001 != 0) <==> (m2 & 0x001 != 0)
    requires (m1 & 0x002 != 0) <==> (m2 & 0x002 != 0)
    requires (m1 & 0x004 != 0) <==> (m2 & 0x004 != 0)
    requires (m1 & 0x008 != 0) <==> (m2 & 0x008 != 0)
    requires (m1 & 0x010 != 0) <==> (m2 & 0x010 != 0)
    requires (m1 & 0x020 != 0) <==> (m2 & 0x020 != 0)
    requires (m1 & 0x040 != 0) <==> (m2 & 0x040 != 0)
    requires (m1 & 0x100 != 0) <==> (m2 & 0x100 != 0)
    ensures m1 == m2
  {
  }

  /** A set of categories has only one mask. */
  lemma RepresentsUnique(m1: bv32, m2: bv32, s: set<FileNotifyChange>)
    requires Represents(m1, s) && Represents(m2, s)
    ensures m1 == m2
  {
    assert Tag(FileName) == 0x001 && Tag(DirName) == 0x002;
    assert Tag(Attributes) == 0x004 && Tag(Size) == 0x008;
    assert Tag(LastWrite) == 0x010 && Tag(LastAccess) == 0x020;
    assert Tag(Creation) == 0x040 && Tag(Security) == 0x100;
    SameTagBits(m1, m2);
  }

  /** The mask depends only on which categories are listed: not on their
      order, nor on duplicates. */
  lemma MaskOfIgnoresOrderAndDuplicates(fs: seq<FileNotifyChange>, gs: seq<FileNotifyChange>)
    requires forall c :: c in fs <==> c in gs
    ensures MaskOf(fs) == MaskOf(gs)
  {
    MaskOfRepresents(fs);
    MaskOfRepresents(gs);
    assert Members(fs) == Members(gs);
    RepresentsUnique(MaskOf(fs), MaskOf(gs), Members(fs));
  }

  /** Lists with different members have different masks. */
  lemma MaskOfInjective(fs: seq<FileNotifyChange>, gs: seq<FileNotifyChange>)
    requires MaskOf(fs) == MaskOf(gs)
    ensures forall c :: c in fs <==> c in gs
  {
    MaskOfRepresents(fs);
    MaskOfRepresents(gs);
    forall c ensures c in fs <==> c in gs {
      assert c in fs <==> c in Members(fs);
      assert c in gs <==> c in Members(gs);
    }
  }

  /** `FileAction`: what happened to the file a change record names. */
  datatype FileAction =
    | FileAdded | FileRemoved | FileModified
    | FileRenamedOldName | FileRenamedNewName

  /** The discriminant of each action, the `FILE_ACTION_*` code, one of 1..5. */
  function Discriminant(a: FileAction): (r: U32)
    ensures 1 <= r <= 5
  {
    match a
    case FileAdded => 1
    case FileRemoved => 2
    case FileModified => 3
    case FileRenamedOldName => 4
    case FileRenamedNewName => 5
  }

  /** `from_u32`: the action with code `value`; any code outside 1..5 reaches
      `unreachable!()`. */
  function FromU32(value: U32): (r: Option<FileAction>)
    ensures r.Some? <==> 1 <= value <= 5
    ensures r.Some? ==> Discriminant(r.value) == value
  {
    match value
    case 1 => Some(FileAdded)
    case 2 => Some(FileRemoved)
    case 3 => Some(FileModified)
    case 4 => Some(FileRenamedOldName)
    case 5 => Some(FileRenamedNewName)
    case _ => None
  }

  /** `FromU32` inverts `Discriminant`, so it is onto the actions and injective. */
  lemma FromU32OfDiscriminant(a: FileAction)
    ensures FromU32(Discriminant(a)) == Some(a)
  {
  }

  lemma FromU32Injective(v: U32, w: U32)
    requires FromU32(v).Some? && FromU32(v) == FromU32(w)
    ensures v == w
  {
  }

  /** The derived `Debug` text of an action: its variant name, which starts
      with "File" and has 9 to 18 characters. */
  function Debug(a: FileAction): (r: string)
    ensures 9 <= |r| <= 18 && r[..4] == "File"
  {
    match a
    case FileAdded => "FileAdded"
    case FileRemoved => "FileRemoved"
    case FileModified => "FileModified"
    case FileRenamedOldName => "FileRenamedOldName"
    case FileRenamedNewName => "FileRenamedNewName"
  }

  /** `Display` writes an action with the `{:?}` format, i.e. as `Debug` does:
      the text is the `Debug` text of `a` and of no other action. */
  function Display(a: FileAction): (r: string)
    ensures forall b :: r == Debug(b) <==> b == a
  {
    Debug(a)
  }

  /** The crate's two unit tests: `FileAdded` is shown as "FileAdded" by both. */
  lemma DisplayFileAdded()
    ensures Display(FileAdded) == "FileAdded"
    ensures Debug(FileAdded) == "FileAdded"
  {
  }

  /** No action's text is a proper prefix of another's, so the text names the
      action even when more text follows it. */
  lemma DisplayPrefixFree(a: FileAction, b: FileAction, s: string, t: string)
    requires Display(a) + s == Display(b) + t
    ensures a == b && s == t
  {
    DisplayAt(a, s, 4);
    DisplayAt(b, t, 4);
    DisplayAt(a, s, 6);
    DisplayAt(b, t, 6);
    if |Display(a)| > 11 && |Display(b)| > 11 {
      DisplayAt(a, s, 11);
      DisplayAt(b, t, 11);
    }
    assert s == (Display(a) + s)[|Display(a)|..];
  }

  lemma DisplayAt(a: FileAction, s: string, k: nat)
    requires k < |Display(a)|
    ensures (Display(a) + s)[k] == Display(a)[k]
  {
  }
}
