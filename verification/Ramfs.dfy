/** The volatile file table: at most sixteen text files in order of creation. */
module Ramfs {
  import opened Bytes
  import opened JournalCodec

  const MAX_FILES: nat := 16
  const TEXT_MAX: nat := 256

  datatype File = File(name: seq<byte>, contents: seq<byte>)

  /** A NUL-terminated string, without its terminator. */
  type CString = s: seq<byte> | 0 !in s witness []

  function Find(files: seq<File>, name: seq<byte>): (i: nat)
    ensures i <= |files|
    ensures i < |files| ==> files[i].name == name
    ensures forall k :: 0 <= k < i ==> files[k].name != name
  {
    if files == [] || files[0].name == name then 0 else 1 + Find(files[1..], name)
  }

  predicate CanWrite(files: seq<File>, name: seq<byte>, contents: seq<byte>) {
    ValidName(name) && |contents| < TEXT_MAX && (Find(files, name) < |files| || |files| != MAX_FILES)
  }

  function Written(files: seq<File>, name: seq<byte>, contents: seq<byte>): seq<File> {
    var i := Find(files, name);
    if i < |files| then files[i := File(name, contents)] else files + [File(name, contents)]
  }

  function Removed(files: seq<File>, name: seq<byte>): seq<File> {
    var i := Find(files, name);
    if i < |files| then files[..i] + files[i + 1..] else files
  }

  /** One committed operation replayed into the table; None when the table refuses it. */
  function Apply(files: seq<File>, e: Entry): Option<seq<File>> {
    if !ValidName(e.name) || |e.content| >= TEXT_MAX then None
    else if e.operation.Remove? then if e.content != [] then None else Some(Removed(files, e.name))
    else if 0 in e.content || !CanWrite(files, e.name, e.content) then None
    else Some(Written(files, e.name, e.content))
  }

  /** The whole log, oldest operation first. */
  function Replay(files: seq<File>, entries: seq<Entry>): Option<seq<File>> {
    if entries == [] then Some(files)
    else match Replay(files, entries[..|entries| - 1])
         case None => None
         case Some(f) => Apply(f, entries[|entries| - 1])
  }

  lemma ReplaySnoc(files: seq<File>, entries: seq<Entry>, e: Entry)
    ensures Replay(files, entries + [e]) == (match Replay(files, entries) case None => None case Some(f) => Apply(f, e))
  {
    assert (entries + [e])[..|entries|] == entries;
  }

  predicate Distinct(files: seq<File>) {
    forall i, j :: 0 <= i < j < |files| ==> files[i].name != files[j].name
  }

  predicate WellFormed(files: seq<File>) {
    && |files| <= MAX_FILES && Distinct(files)
    && forall i :: 0 <= i < |files| ==> ValidName(files[i].name) && |files[i].contents| < TEXT_MAX
  }

  lemma WrittenWellFormed(files: seq<File>, name: seq<byte>, contents: seq<byte>)
    requires WellFormed(files) && CanWrite(files, name, contents)
    ensures WellFormed(Written(files, name, contents))
  {
  }

  lemma RemovedWellFormed(files: seq<File>, name: seq<byte>)
    requires WellFormed(files)
    ensures WellFormed(Removed(files, name))
  {
  }

  lemma ApplyWellFormed(files: seq<File>, e: Entry)
    requires WellFormed(files) && Apply(files, e).Some?
    ensures WellFormed(Apply(files, e).value)
  {
    if e.operation.Remove? {
      RemovedWellFormed(files, e.name);
    } else {
      WrittenWellFormed(files, e.name, e.content);
    }
  }

  /** So every log that replays leaves a well-formed table. */
  lemma {:induction false} ReplayWellFormed(files: seq<File>, log: seq<Entry>)
    requires WellFormed(files) && Replay(files, log).Some?
    ensures WellFormed(Replay(files, log).value)
    decreases |log|
  {
    hide WellFormed, Apply;
    if log != [] {
      var front := log[..|log| - 1];
      ReplayWellFormed(files, front);
      ApplyWellFormed(Replay(files, front).value, log[|log| - 1]);
    }
  }

  // ---------- What the table means: a finite map from names to contents ----------

  function Lookup(files: seq<File>, name: seq<byte>): Option<seq<byte>> {
    var i := Find(files, name);
    if i < |files| then Some(files[i].contents) else None
  }

  /** Writing changes what is found under the written name and under no other. */
  lemma LookupWritten(files: seq<File>, name: seq<byte>, contents: seq<byte>, other: seq<byte>)
    ensures Lookup(Written(files, name, contents), other) == if other == name then Some(contents) else Lookup(files, other)
  {
    var w, i, j := Written(files, name, contents), Find(files, name), Find(files, other);
    FindIs(w, other, if other == name || j < |files| then j else |w|);
  }

  /** Removing a name takes away that file and no other. */
  lemma LookupRemoved(files: seq<File>, name: seq<byte>, other: seq<byte>)
    requires Distinct(files)
    ensures Lookup(Removed(files, name), other) == if other == name then None else Lookup(files, other)
  {
    var r, i, j := Removed(files, name), Find(files, name), Find(files, other);
    if i < |files| {
      assert forall k :: 0 <= k < |r| ==> r[k] == files[if k < i then k else k + 1];
      FindIs(r, other, if other == name || j == |files| then |r| else if j < i then j else j - 1);
    }
  }

  lemma FindIs(files: seq<File>, name: seq<byte>, i: nat)
    requires i <= |files| && (i < |files| ==> files[i].name == name)
    requires forall k :: 0 <= k < i ==> files[k].name != name
    ensures Find(files, name) == i
  {
  }

  /** A committed operation applies exactly when the table could have made it: no replay refuses what a save accepts. */
  lemma AppliesIff(files: seq<File>, e: Entry)
    ensures Apply(files, e).Some? <==>
              && ValidName(e.name) && |e.content| < 256
              && (if e.operation.Write? then 0 !in e.content && (Lookup(files, e.name).Some? || |files| != 16) else e.content == [])
  {
  }

  /** An applied operation changes what is found under its own name, and under no other. */
  lemma ApplyMeans(files: seq<File>, e: Entry, name: seq<byte>)
    requires Distinct(files) && Apply(files, e).Some?
    ensures Lookup(Apply(files, e).value, name) ==
              if name != e.name then Lookup(files, name) else if e.operation.Write? then Some(e.content) else None
  {
    if e.operation.Write? {
      LookupWritten(files, e.name, e.content, name);
    } else {
      LookupRemoved(files, e.name, name);
    }
  }

  /** The last operation of a log on this name; the length of the log when there is none. */
  function LastNaming(log: seq<Entry>, name: seq<byte>): (i: nat)
    ensures i <= |log| && (i < |log| ==> log[i].name == name)
    ensures forall k :: 0 <= k < |log| && (i == |log| || i < k) ==> log[k].name != name
  {
    if log == [] then 0
    else if log[|log| - 1].name == name then |log| - 1
    else
      var i := LastNaming(log[..|log| - 1], name);
      if i == |log| - 1 then |log| else i
  }

  /** What a log makes of a name: the content of the last write, nothing after a removal, the old content if never named. */
  function ContentAfter(files: seq<File>, log: seq<Entry>, name: seq<byte>): Option<seq<byte>> {
    var i := LastNaming(log, name);
    if i == |log| then Lookup(files, name) else if log[i].operation.Write? then Some(log[i].content) else None
  }

  lemma {:induction false} ReplayMeans(files: seq<File>, log: seq<Entry>, name: seq<byte>)
    requires WellFormed(files) && Replay(files, log).Some?
    ensures Lookup(Replay(files, log).value, name) == ContentAfter(files, log, name)
    decreases |log|
  {
    hide Apply, Lookup;
    if log != [] {
      var front := log[..|log| - 1];
      ReplayMeans(files, front, name);
      ReplayWellFormed(files, front);
      ApplyMeans(Replay(files, front).value, log[|log| - 1], name);
    }
  }

  // ---------- Acceptance depends on the names alone ----------

  predicate SameNames(f: seq<File>, g: seq<File>) {
    |f| == |g| && forall i :: 0 <= i < |f| ==> f[i].name == g[i].name
  }

  lemma ApplyByName(f: seq<File>, g: seq<File>, e: Entry)
    requires SameNames(f, g)
    ensures Apply(f, e).Some? <==> Apply(g, e).Some?
    ensures Apply(f, e).Some? ==> SameNames(Apply(f, e).value, Apply(g, e).value)
  {
    var i := Find(f, e.name);
    FindIs(g, e.name, i);
    assert SameNames(Written(f, e.name, e.content), Written(g, e.name, e.content));
    assert SameNames(Removed(f, e.name), Removed(g, e.name));
  }

  // ---------- The table in place ----------

  function InitialFiles(): (r: seq<File>)
    ensures WellFormed(r)
  {
    // README, MOTD, EFES
    var readme := [0x52, 0x45, 0x41, 0x44, 0x4D, 0x45];
    var motd := [0x4D, 0x4F, 0x54, 0x44];
    var efes := [0x45, 0x46, 0x45, 0x53];
    assert readme[0] != motd[0] && readme[0] != efes[0] && motd[0] != efes[0];
    [File(readme, Text("EfesOS RAM filesystem\n")), File(motd, Text("Build, learn, and drink responsibly.\n")),
     File(efes, Text("EfesOS RAM filesystem entry.\n"))]
  }

  function Text(s: string): (r: seq<byte>)
    ensures |r| == |s|
  {
    seq(|s|, i requires 0 <= i < |s| => (s[i] as int) % 0x100)
  }

  class Table {
    const files: array<File>
    var count: nat

    ghost predicate Valid()
      reads this, files
    {
      files.Length == MAX_FILES && count <= MAX_FILES && WellFormed(files[..count])
    }

    ghost function Contents(): seq<File>
      requires count <= files.Length
      reads this, files
    {
      files[..count]
    }

    constructor ()
      ensures Valid() && fresh(files) && Contents() == InitialFiles()
    {
      files := new File[MAX_FILES](_ => File([], []));
      count := 0;
      new;
      var initial := InitialFiles();
      for i := 0 to |initial|
        invariant count == i && files[..i] == initial[..i]
      {
        files[i] := initial[i];
        count := count + 1;
      }
    }

    method Locate(name: seq<byte>) returns (i: nat)
      requires Valid()
      ensures i == Find(Contents(), name)
    {
      i := 0;
      while i < count
        invariant i <= count && forall k :: 0 <= k < i ==> files[k].name != name
      {
        if files[i].name == name {
          return;
        }
        i := i + 1;
      }
    }

    method CanWriteFile(name: CString, contents: CString) returns (ok: bool)
      requires Valid()
      ensures ok == CanWrite(Contents(), name, contents)
    {
      var named := IsValidName(name);
      var i := Locate(name);
      ok := named && |contents| < TEXT_MAX && (i < count || count != MAX_FILES);
    }

    method WriteFile(name: CString, contents: CString) returns (ok: bool)
      requires Valid()
      modifies this`count, files
      ensures Valid()
      ensures ok == old(CanWrite(Contents(), name, contents))
      ensures Contents() == if ok then Written(old(Contents()), name, contents) else old(Contents())
    {
      ok := CanWriteFile(name, contents);
      if !ok {
        return;
      }
      WrittenWellFormed(Contents(), name, contents);
      var i := Locate(name);
      files[i] := File(name, contents);
      if i == count {
        count := count + 1;
      }
    }

    method RemoveFile(name: CString) returns (ok: bool)
      requires Valid()
      modifies this`count, files
      ensures Valid()
      ensures ok == (ValidName(name) && old(Find(Contents(), name) < count))
      ensures Contents() == if ok then Removed(old(Contents()), name) else old(Contents())
    {
      hide WellFormed, ValidName;
      var named := IsValidName(name);
      var i := Locate(name);
      if !named || i == count {
        return false;
      }
      ghost var before := Contents();
      RemovedWellFormed(before, name);
      CloseGap(i);
      assert Contents() == before[..i] + before[i + 1..];
      return true;
    }

    /** Moves every later file down one slot. */
    method CloseGap(i: nat)
      requires i < count <= files.Length
      modifies this`count, files
      ensures count == old(count) - 1
      ensures files[..count] == old(files[..i]) + old(files[i + 1..count])
    {
      ghost var was := files[..];
      for move := i + 1 to count
        invariant count == old(count)
        invariant forall k :: 0 <= k < i || move - 1 <= k < files.Length ==> files[k] == was[k]
        invariant forall k :: i <= k < move - 1 ==> files[k] == was[k + 1]
      {
        files[move - 1] := files[move];
      }
      count := count - 1;
      assert files[..count] == was[..i] + was[i + 1..count + 1];
    }

    method ApplyEntry(e: Entry) returns (ok: bool)
      requires Valid()
      modifies this`count, files
      ensures Valid()
      ensures ok == old(Apply(Contents(), e)).Some?
      ensures Contents() == if ok then old(Apply(Contents(), e)).value else old(Contents())
    {
      var named := IsValidName(e.name);
      if !named || |e.content| >= TEXT_MAX {
        return false;
      }
      if e.operation.Remove? {
        if |e.content| != 0 {
          return false;
        }
        var i := Locate(e.name);
        if i == count {
          return true;
        }
        assert 0 !in e.name;
        ok := RemoveFile(e.name);
        return;
      }
      for index := 0 to |e.content|
        invariant 0 !in e.content[..index]
      {
        if e.content[index] == 0 {
          return false;
        }
      }
      assert 0 !in e.name && 0 !in e.content;
      ok := WriteFile(e.name, e.content);
    }
  }
}
