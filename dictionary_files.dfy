/** FileDictionaryHandler: the rules by which dictionary files become trie
    entries. Lines are "word<TAB>type[<TAB>count]"; a file named after the
    ambiguous dictionary feeds the ambiguous trie, every other file the main
    one; free memory caps how many lines are read; and the whole directory is
    loaded at most once. */
module DictionaryFiles {
  import opened Common
  import opened JStrings
  import opened Tree
  import opened Tries

  /** Integer.MAX_VALUE. */
  const IntMax: int := 0x7fff_ffff

  /** The dictionary a file feeds. */
  datatype DictType = Normal | Ambiguous

  /** What parse returns: the word, and the type or null. */
  datatype Entry = Entry(word: string, pos: Option<string>)

  /** parse: without a tab the line is the word and there is no type; with
      one, the word is the text before the first tab and the type the text
      between the first and the second tab (or the end), both trimmed. */
  function Parse(line: string): (r: Entry)
    ensures '\t' !in line ==> r == Entry(line, None)
    ensures '\t' in line ==> r.pos.Some? && '\t' !in r.word && '\t' !in r.pos.value
  {
    var first := IndexOf(line, '\t');
    if first == -1 then Entry(line, None)
    else
      var posCount := line[first + 1..];
      var second := IndexOf(posCount, '\t');
      var pos := if second != -1 then posCount[..second] else posCount;
      TrimAdds(line[..first], '\t');
      TrimAdds(pos, '\t');
      Entry(Trim(line[..first]), Some(Trim(pos)))
  }

  /** A record "word<TAB>type" reads back as its two trimmed fields. */
  lemma ParseRecord(word: string, pos: string)
    requires '\t' !in word && '\t' !in pos
    ensures Parse(word + "\t" + pos) == Entry(Trim(word), Some(Trim(pos)))
  {
    var line := word + "\t" + pos;
    IndexOfAfter(word, '\t', pos);
    assert line[..|word|] == word && line[|word| + 1..] == pos;
  }

  /** A record "word<TAB>type<TAB>count" reads back as its first two trimmed
      fields; the count and anything after it are dropped. */
  lemma ParseRecordWithCount(word: string, pos: string, count: string)
    requires '\t' !in word && '\t' !in pos
    ensures Parse(word + "\t" + pos + "\t" + count) == Entry(Trim(word), Some(Trim(pos)))
  {
    var line := word + "\t" + pos + "\t" + count;
    assert line == word + "\t" + (pos + "\t" + count);
    IndexOfAfter(word, '\t', pos + "\t" + count);
    var posCount := line[|word| + 1..];
    assert line[..|word|] == word && posCount == pos + "\t" + count;
    IndexOfAfter(pos, '\t', count);
    assert posCount[..|pos|] == pos;
  }

  // ---------------------------------------------------------------------------
  // How many lines a file may load
  // ---------------------------------------------------------------------------

  /** The step function of getActualSize: the line budget for the free memory
      in megabytes. */
  function Cap(freeMemory: int): (r: int)
    ensures 500000 <= r <= IntMax
    ensures freeMemory > 3072 <==> r == IntMax
  {
    if freeMemory <= 512 then 500000
    else if freeMemory <= 1024 then 1500000
    else if freeMemory <= 1536 then 2000000
    else if freeMemory <= 2048 then 2700000
    else if freeMemory <= 3072 then 3500000
    else IntMax
  }

  /** More free memory never lowers the budget. */
  lemma {:induction false} CapMonotone(m1: int, m2: int)
    requires m1 <= m2
    ensures Cap(m1) <= Cap(m2)
  {
  }

  /** getActualSize: the number of lines to load out of lines, with the free
      memory (AnalysisUtil.getFreeMemoryM) as a parameter. */
  function ActualSize(freeMemory: int, lines: nat): (r: nat)
    requires lines <= IntMax
    ensures r <= lines && r <= Cap(freeMemory) && (r == lines || r == Cap(freeMemory))
    ensures freeMemory > 3072 ==> r == lines
  {
    if Cap(freeMemory) < lines then Cap(freeMemory) else lines
  }

  /** More free memory never loads fewer lines. */
  lemma ActualSizeMonotone(m1: int, m2: int, lines: nat)
    requires m1 <= m2 && lines <= IntMax
    ensures ActualSize(m1, lines) <= ActualSize(m2, lines)
  {
    CapMonotone(m1, m2);
  }

  /** getDictType: the ambiguous dictionary exactly for the file carrying the
      reserved name. */
  function GetDictType(fileName: string, ambiguousName: string): (r: DictType)
    ensures r == Ambiguous <==> fileName == ambiguousName
  {
    if fileName == ambiguousName then Ambiguous else Normal
  }

  // ---------------------------------------------------------------------------
  // What a run of lines adds
  // ---------------------------------------------------------------------------

  /** The entry a line yields: none for a null or empty line, otherwise the
      parse of the trimmed line. */
  function LineEntry(line: Option<string>): Option<Entry>
  {
    if line.Some? && line.value != [] then Some(Parse(Trim(line.value))) else None
  }

  /** The error Trie.add raises for the entry, if any. */
  function EntryError(e: Entry): Option<Error>
  {
    if Trim(e.word) == [] then Some(IllegalArgument)
    else if e.pos.None? then Some(UnknownTokenType)
    else None
  }

  /** The line yields an entry the trie refuses. */
  predicate Refused(line: Option<string>)
  {
    LineEntry(line).Some? && EntryError(LineEntry(line).value).Some?
  }

  /** The (lower-cased word, type) pair a line adds, if it adds one. */
  function Added(line: Option<string>): seq<(string, string)>
  {
    match LineEntry(line)
    case Some(e) => if EntryError(e).None? then [(Lower(e.word), e.pos.value)] else []
    case None => []
  }

  /** The pairs a run of lines adds, in order. */
  function Loaded(lines: seq<Option<string>>): seq<(string, string)>
  {
    if lines == [] then [] else Loaded(lines[..|lines| - 1]) + Added(lines[|lines| - 1])
  }

  /** Which lines the trie refuses. */
  function Refusals(lines: seq<Option<string>>): (r: seq<bool>)
    ensures |r| == |lines| && forall j :: 0 <= j < |lines| ==> (r[j] <==> Refused(lines[j]))
  {
    seq(|lines|, j requires 0 <= j < |lines| => Refused(lines[j]))
  }

  /** Where the line loop stops among the first size lines: at the first
      refused line, or after all of them. */
  function Stop(refused: seq<bool>, size: nat): (k: nat)
    requires size <= |refused|
    ensures k <= size
    ensures forall j :: 0 <= j < k ==> !refused[j]
    ensures k < size ==> refused[k]
  {
    if size == 0 then 0
    else
      var k := Stop(refused, size - 1);
      if k < size - 1 then k else if refused[size - 1] then size - 1 else size
  }

  /** A line "word<TAB>type" with non-blank outer ends yields its trimmed
      fields. */
  lemma LineEntryRecord(word: string, pos: string)
    requires '\t' !in word && '\t' !in pos
    requires word != [] && !IsTrimSpace(word[0]) && pos != [] && !IsTrimSpace(pos[|pos| - 1])
    ensures LineEntry(Some(word + "\t" + pos)) == Some(Entry(Trim(word), Some(Trim(pos))))
  {
    var line := word + "\t" + pos;
    assert line[0] == word[0] && line[|line| - 1] == pos[|pos| - 1];
    TrimmedAlready(line);
    ParseRecord(word, pos);
  }

  /** Such a line adds its lower-cased trimmed word with its trimmed type. */
  lemma AddedRecord(word: string, pos: string)
    requires '\t' !in word && '\t' !in pos
    requires word != [] && !IsTrimSpace(word[0]) && pos != [] && !IsTrimSpace(pos[|pos| - 1])
    ensures Added(Some(word + "\t" + pos)) == [(Lower(Trim(word)), Trim(pos))]
  {
    LineEntryRecord(word, pos);
    assert !IsBlank(word);
    TrimNonBlank(word);
  }

  /** A line whose type is blank loses its tab to the trim of the whole line,
      so it parses without a type. */
  lemma LineEntryBlankType(word: string, pos: string)
    requires '\t' !in word && !IsBlank(word) && IsBlank(pos)
    ensures LineEntry(Some(word + "\t" + pos)) == Some(Entry(Trim(word), None))
  {
    TrimBlankTail(word, "\t" + pos);
    assert word + ("\t" + pos) == word + "\t" + pos;
    TrimAdds(word, '\t');
  }

  /** ... and the trie refuses it for want of a type. */
  lemma BlankTypeRefused(word: string, pos: string)
    requires '\t' !in word && !IsBlank(word) && IsBlank(pos)
    ensures Refused(Some(word + "\t" + pos))
    ensures EntryError(LineEntry(Some(word + "\t" + pos)).value) == Some(UnknownTokenType)
  {
    LineEntryBlankType(word, pos);
    TrimNonBlank(word);
  }

  // ---------------------------------------------------------------------------
  // The load-once gate
  // ---------------------------------------------------------------------------

  /** tryGetLoadAllDictChance when no other thread interferes: the chance and
      the counter afterwards. */
  function Chance(count: int): (bool, int)
  {
    if count == 0 then (true, 1) else (false, count)
  }

  /** The answers of n calls in a row, starting from count. */
  function Chances(count: int, n: nat): (r: seq<bool>)
    ensures |r| == n
    decreases n
  {
    if n == 0 then [] else [Chance(count).0] + Chances(Chance(count).1, n - 1)
  }

  /** Once the counter has left 0 no call gets the chance. */
  lemma {:induction false} NoChanceAfterwards(count: int, n: nat)
    requires count != 0
    ensures forall i :: 0 <= i < n ==> !Chances(count, n)[i]
  {
    if n > 0 {
      NoChanceAfterwards(count, n - 1);
      assert Chances(count, n) == [false] + Chances(count, n - 1);
    }
  }

  /** Of any run of calls only the first can get the chance, and it does
      exactly when the counter starts at 0: loadAll loads at most once. */
  lemma ChanceAtMostOnce(count: int, n: nat)
    requires n > 0
    ensures Chances(count, n)[0] <==> count == 0
    ensures forall i :: 0 < i < n ==> !Chances(count, n)[i]
  {
    NoChanceAfterwards(Chance(count).1, n - 1);
    assert Chances(count, n) == [Chance(count).0] + Chances(Chance(count).1, n - 1);
  }

  // ---------------------------------------------------------------------------
  // Files
  // ---------------------------------------------------------------------------

  /** The lines of a file as FileUtils.readLines returns them: a Java list,
      whose size is an int. */
  type LineList = ls: seq<Option<string>> | |ls| <= IntMax

  /** A file of the dictionary directory: its name, whether it is a directory,
      and its lines, or None when reading it fails. */
  datatype DictFile = DictFile(name: string, isDirectory: bool, lines: Option<LineList>)

  /** The pairs loadFromFile adds from the file to the dictionary of type t. */
  function FileWords(f: DictFile, t: DictType, freeMemory: int, ambiguousName: string): seq<(string, string)>
  {
    if f.isDirectory || f.lines.None? || f.lines.value == [] || GetDictType(f.name, ambiguousName) != t then []
    else
      var ls := f.lines.value;
      Loaded(ls[..Stop(Refusals(ls), ActualSize(freeMemory, |ls|))])
  }

  /** The pairs a run of files adds to the dictionary of type t, in order. */
  function FilesWords(files: seq<DictFile>, t: DictType, freeMemory: int, ambiguousName: string): seq<(string, string)>
  {
    if files == [] then []
    else FilesWords(files[..|files| - 1], t, freeMemory, ambiguousName)
         + FileWords(files[|files| - 1], t, freeMemory, ambiguousName)
  }

  /** A file feeds one dictionary only. */
  lemma FileFeedsOne(f: DictFile, freeMemory: int, ambiguousName: string)
    ensures FileWords(f, Normal, freeMemory, ambiguousName) == [] || FileWords(f, Ambiguous, freeMemory, ambiguousName) == []
  {
  }

  /** How loadFromFile completes on the file: normally, unless the
      dictionary refuses one of the lines it reads. */
  function FileOutcome(f: DictFile, freeMemory: int): (r: Outcome)
    ensures r.Fail? ==> f.lines.Some? && exists k :: 0 <= k < |f.lines.value| && Refused(f.lines.value[k])
  {
    if f.isDirectory || f.lines.None? || f.lines.value == [] then Pass
    else
      var ls := f.lines.value;
      var size := ActualSize(freeMemory, |ls|);
      var k := Stop(Refusals(ls), size);
      if k == size then Pass else Fail(EntryError(LineEntry(ls[k]).value).value)
  }

  /** Which files loadFromFile fails on. */
  function Failures(files: seq<DictFile>, freeMemory: int): (r: seq<bool>)
    ensures |r| == |files| && forall j :: 0 <= j < |files| ==> (r[j] <==> FileOutcome(files[j], freeMemory).Fail?)
  {
    seq(|files|, j requires 0 <= j < |files| => FileOutcome(files[j], freeMemory).Fail?)
  }

  /** How many of the files loadAll reads: all of them when each is loaded
      by a worker of its own, up to and including the first failing one when
      the workers run in the calling thread. */
  function Attempted(files: seq<DictFile>, asyncLoad: bool, freeMemory: int): (n: nat)
    ensures n <= |files|
  {
    var k := Stop(Failures(files, freeMemory), |files|);
    if asyncLoad || k == |files| then |files| else k + 1
  }

  /** How the files loop of loadAll completes: a failing worker of its own
      thread is lost, one run in the calling thread aborts loadAll. */
  function FilesOutcome(files: seq<DictFile>, asyncLoad: bool, freeMemory: int): (r: Outcome)
    ensures asyncLoad ==> r == Pass
    ensures r.Fail? ==> exists j :: 0 <= j < |files| && FileOutcome(files[j], freeMemory) == r
  {
    var k := Stop(Failures(files, freeMemory), |files|);
    if asyncLoad || k == |files| then Pass else FileOutcome(files[k], freeMemory)
  }

  /** Reading one more file appends what it adds. */
  lemma FilesWordsSnoc(files: seq<DictFile>, i: nat, t: DictType, freeMemory: int, ambiguousName: string)
    requires i < |files|
    ensures FilesWords(files[..i + 1], t, freeMemory, ambiguousName)
            == FilesWords(files[..i], t, freeMemory, ambiguousName) + FileWords(files[i], t, freeMemory, ambiguousName)
  {
    assert files[..i + 1][..i] == files[..i];
  }

  /** Where the files loop of the calling thread stops: after file i when i
      is the first failing file, after all files when none fails. */
  lemma FilesStop(files: seq<DictFile>, freeMemory: int, i: nat)
    requires i <= |files| && Stop(Failures(files, freeMemory), i) == i
    requires i < |files| ==> Failures(files, freeMemory)[i]
    ensures Attempted(files, false, freeMemory) == if i < |files| then i + 1 else i
    ensures FilesOutcome(files, false, freeMemory) == if i < |files| then FileOutcome(files[i], freeMemory) else Pass
  {
    var refused := Failures(files, freeMemory);
    if i < |files| {
      StopFound(refused, i);
    }
    assert Stop(refused, |files|) == i;
  }

  /** The static fields of FileDictionaryHandler: the main and the ambiguous
      dictionary, the directory and the counter of full loads. A JVM holds
      one of these, and every handler reads and changes that one. */
  class DictionaryStatics {
    const dict: Trie
    const ambiguous: Trie
    var directory: Option<string>
    /** actualLoadDictCount. */
    var loadCount: int

    ghost predicate Valid()
      reads this, dict, dict.tree, dict.tree.gen, ambiguous, ambiguous.tree, ambiguous.tree.gen
    {
      && dict != ambiguous && dict.tree != ambiguous.tree && dict.tree.gen != ambiguous.tree.gen
      && dict.Valid() && ambiguous.Valid()
    }

    /** The static initialisers: both dictionaries empty, no directory,
        nothing loaded yet. */
    constructor ()
      ensures Valid() && directory.None? && loadCount == 0
      ensures dict.words == [] && ambiguous.words == []
      ensures fresh(dict) && fresh(dict.tree) && fresh(dict.tree.gen)
      ensures fresh(ambiguous) && fresh(ambiguous.tree) && fresh(ambiguous.tree.gen)
    {
      var mainIds := new IdGen();
      var ambiguousIds := new IdGen();
      dict := new Trie(mainIds);
      ambiguous := new Trie(ambiguousIds);
      directory := None;
      loadCount := 0;
    }
  }

  /** The handler: the static state it shares with every other handler, and
      its own choice of loading files asynchronously. */
  class FileDictionaryHandler {
    const statics: DictionaryStatics
    /** isAsynLoadDict: whether every file is loaded by a worker thread of its
        own. */
    var asyncLoad: bool

    ghost predicate Valid()
      reads this, statics, statics.dict, statics.dict.tree, statics.dict.tree.gen,
        statics.ambiguous, statics.ambiguous.tree, statics.ambiguous.tree.gen
    {
      statics.Valid()
    }

    /** A handler over the JVM's static state, which it leaves as it finds
        it: the dictionaries, the directory and the counter are those every
        earlier handler left behind. */
    constructor (statics: DictionaryStatics)
      requires statics.Valid()
      ensures Valid() && this.statics == statics && asyncLoad
      ensures unchanged(statics, statics.dict, statics.ambiguous)
    {
      this.statics := statics;
      asyncLoad := true;
    }

    /** The dictionary a file of type t feeds. */
    function Target(t: DictType): (d: Trie)
      ensures d == statics.dict || d == statics.ambiguous
    {
      if t == Normal then statics.dict else statics.ambiguous
    }

    /** setDirectory. */
    method SetDirectory(d: Option<string>)
      modifies statics
      ensures statics.directory == d && statics.loadCount == old(statics.loadCount) && asyncLoad == old(asyncLoad)
    {
      statics.directory := d;
    }

    /** tryGetLoadAllDictChance, run by one thread at a time: the compare-and-set
        loop succeeds on its first turn exactly when the counter is 0. */
    method TryGetLoadAllDictChance() returns (r: bool)
      modifies statics
      ensures (r, statics.loadCount) == Chance(old(statics.loadCount))
      ensures statics.directory == old(statics.directory) && asyncLoad == old(asyncLoad)
    {
      if statics.loadCount == 0 {
        statics.loadCount := statics.loadCount + 1;
        return true;
      }
      return false;
    }

    /** setIsAsynLoadDict. */
    method SetAsyncLoad(b: bool)
      modifies this
      ensures asyncLoad == b && statics.directory == old(statics.directory) && statics.loadCount == old(statics.loadCount)
    {
      asyncLoad := b;
    }

    /** loadFromFile: a directory, an unreadable file and an empty file are
        skipped; otherwise the line loop runs on the dictionary the file's
        name selects. */
    method LoadFromFile(f: DictFile, freeMemory: int, ambiguousName: string) returns (r: Outcome)
      requires Valid()
      modifies statics.dict, statics.dict.tree, statics.dict.tree.gen, statics.ambiguous, statics.ambiguous.tree, statics.ambiguous.tree.gen
      ensures Valid() && r == FileOutcome(f, freeMemory)
      ensures statics.dict.words == old(statics.dict.words) + FileWords(f, Normal, freeMemory, ambiguousName)
      ensures statics.ambiguous.words == old(statics.ambiguous.words) + FileWords(f, Ambiguous, freeMemory, ambiguousName)
    {
      if f.isDirectory {
        return Pass;
      }
      var t := GetDictType(f.name, ambiguousName);
      if f.lines.None? || f.lines.value == [] {
        return Pass;
      }
      var ls := f.lines.value;
      var lines := new Option<string>[|ls|](j requires 0 <= j < |ls| => ls[j]);
      assert lines[..] == ls;
      r := LoadLines(Target(t), lines, freeMemory);
    }

    /** The files loop of loadAll: each file in turn, going on past a failing
        file only when workers run in threads of their own. */
    method LoadFiles(files: seq<DictFile>, freeMemory: int, ambiguousName: string) returns (r: Outcome)
      requires Valid()
      modifies statics.dict, statics.dict.tree, statics.dict.tree.gen, statics.ambiguous, statics.ambiguous.tree, statics.ambiguous.tree.gen
      ensures Valid() && r == FilesOutcome(files, asyncLoad, freeMemory)
      ensures var n := Attempted(files, asyncLoad, freeMemory);
        && statics.dict.words == old(statics.dict.words) + FilesWords(files[..n], Normal, freeMemory, ambiguousName)
        && statics.ambiguous.words == old(statics.ambiguous.words) + FilesWords(files[..n], Ambiguous, freeMemory, ambiguousName)
    {
      ghost var failures := Failures(files, freeMemory);
      ghost var dict0, ambiguous0 := statics.dict.words, statics.ambiguous.words;
      var async := asyncLoad;
      var i := 0;
      while i < |files|
        invariant i <= |files| && Valid()
        invariant async || Stop(failures, i) == i
        invariant statics.dict.words == dict0 + FilesWords(files[..i], Normal, freeMemory, ambiguousName)
        invariant statics.ambiguous.words == ambiguous0 + FilesWords(files[..i], Ambiguous, freeMemory, ambiguousName)
      {
        var o := LoadFileAt(files, i, freeMemory, ambiguousName, failures, dict0, ambiguous0);
        if o.Fail? && !async {
          FilesStop(files, freeMemory, i);
          return o;
        }
        i := i + 1;
      }
      if !async {
        FilesStop(files, freeMemory, i);
      }
      assert files[..i] == files;
      r := Pass;
    }

    /** One turn of the files loop, on file i. */
    method LoadFileAt(files: seq<DictFile>, i: nat, freeMemory: int, ambiguousName: string,
                      ghost failures: seq<bool>, ghost dict0: seq<(string, string)>, ghost ambiguous0: seq<(string, string)>)
      returns (o: Outcome)
      requires Valid() && i < |files|
      requires failures == Failures(files, freeMemory)
      requires statics.dict.words == dict0 + FilesWords(files[..i], Normal, freeMemory, ambiguousName)
      requires statics.ambiguous.words == ambiguous0 + FilesWords(files[..i], Ambiguous, freeMemory, ambiguousName)
      modifies statics.dict, statics.dict.tree, statics.dict.tree.gen, statics.ambiguous, statics.ambiguous.tree, statics.ambiguous.tree.gen
      ensures Valid() && o == FileOutcome(files[i], freeMemory) && (o.Fail? <==> failures[i])
      ensures statics.dict.words == dict0 + FilesWords(files[..i + 1], Normal, freeMemory, ambiguousName)
      ensures statics.ambiguous.words == ambiguous0 + FilesWords(files[..i + 1], Ambiguous, freeMemory, ambiguousName)
    {
      ghost var dict1, ambiguous1 := statics.dict.words, statics.ambiguous.words;
      o := LoadFromFile(files[i], freeMemory, ambiguousName);
      FilesWordsSnoc(files, i, Normal, freeMemory, ambiguousName);
      FilesWordsSnoc(files, i, Ambiguous, freeMemory, ambiguousName);
      AppendAssoc(dict0, FilesWords(files[..i], Normal, freeMemory, ambiguousName),
                  FileWords(files[i], Normal, freeMemory, ambiguousName));
      AppendAssoc(ambiguous0, FilesWords(files[..i], Ambiguous, freeMemory, ambiguousName),
                  FileWords(files[i], Ambiguous, freeMemory, ambiguousName));
    }

    /** loadAll: the directory must be named and be a directory; past the
        load-once gate every file of the listing (None when listing fails) is
        loaded. */
    method LoadAll(isDirectory: bool, files: Option<seq<DictFile>>, freeMemory: int, ambiguousName: string)
      returns (r: Outcome)
      requires Valid()
      modifies statics, statics.dict, statics.dict.tree, statics.dict.tree.gen, statics.ambiguous, statics.ambiguous.tree, statics.ambiguous.tree.gen
      ensures Valid() && statics.directory == old(statics.directory) && asyncLoad == old(asyncLoad)
      ensures !DirectoryOk(statics.directory, isDirectory) ==>
        (r == Fail(DictionaryHandle) && statics.loadCount == old(statics.loadCount)
         && statics.dict.words == old(statics.dict.words) && statics.ambiguous.words == old(statics.ambiguous.words))
      ensures DirectoryOk(statics.directory, isDirectory) ==> statics.loadCount == Chance(old(statics.loadCount)).1
      ensures DirectoryOk(statics.directory, isDirectory) && !Chance(old(statics.loadCount)).0 ==>
        (r == Pass && statics.dict.words == old(statics.dict.words) && statics.ambiguous.words == old(statics.ambiguous.words))
      ensures DirectoryOk(statics.directory, isDirectory) && Chance(old(statics.loadCount)).0 ==>
        (var fs := if files.Some? then files.value else [];
         var n := Attempted(fs, asyncLoad, freeMemory);
         && r == FilesOutcome(fs, asyncLoad, freeMemory)
         && statics.dict.words == old(statics.dict.words) + FilesWords(fs[..n], Normal, freeMemory, ambiguousName)
         && statics.ambiguous.words == old(statics.ambiguous.words) + FilesWords(fs[..n], Ambiguous, freeMemory, ambiguousName))
    {
      if statics.directory.None? || statics.directory.value == [] {
        return Fail(DictionaryHandle);
      }
      if !isDirectory {
        return Fail(DictionaryHandle);
      }
      var chance := TryGetLoadAllDictChance();
      if !chance {
        return Pass;
      }
      if files.None? || files.value == [] {
        return Pass;
      }
      r := LoadFiles(files.value, freeMemory, ambiguousName);
    }

    /** getDictionary: the shared main dictionary, loaded first when no
        handler has started a load yet; a failed load is thrown to the
        caller. Once the counter has left 0 every handler gets that same
        trie and nothing is read from the files. */
    method GetDictionary(isDirectory: bool, files: Option<seq<DictFile>>, freeMemory: int, ambiguousName: string)
      returns (r: Result<Trie>)
      requires Valid()
      modifies statics, statics.dict, statics.dict.tree, statics.dict.tree.gen, statics.ambiguous, statics.ambiguous.tree, statics.ambiguous.tree.gen
      ensures Valid() && statics.directory == old(statics.directory) && asyncLoad == old(asyncLoad)
      ensures old(statics.loadCount) != 0 ==>
        (r == Success(statics.dict) && statics.loadCount == old(statics.loadCount)
         && statics.dict.words == old(statics.dict.words) && statics.ambiguous.words == old(statics.ambiguous.words))
      ensures old(statics.loadCount) == 0 ==>
        (var fs := if files.Some? then files.value else [];
         var n := Attempted(fs, asyncLoad, freeMemory);
         if !DirectoryOk(statics.directory, isDirectory) then
           r == Failure(DictionaryHandle) && statics.loadCount == 0
           && statics.dict.words == old(statics.dict.words) && statics.ambiguous.words == old(statics.ambiguous.words)
         else
           && statics.loadCount == 1
           && r == (match FilesOutcome(fs, asyncLoad, freeMemory)
                    case Pass => Success(statics.dict)
                    case Fail(e) => Failure(e))
           && statics.dict.words == old(statics.dict.words) + FilesWords(fs[..n], Normal, freeMemory, ambiguousName)
           && statics.ambiguous.words == old(statics.ambiguous.words) + FilesWords(fs[..n], Ambiguous, freeMemory, ambiguousName))
    {
      if statics.loadCount == 0 {
        var o := LoadAll(isDirectory, files, freeMemory, ambiguousName);
        if o.Fail? {
          return Failure(o.error);
        }
      }
      return Success(statics.dict);
    }
  }

  /** Two handlers of one JVM, each a fresh instance, ask for the dictionary
      in turn after the directory is set: once the directory is good the
      second gets the trie every handler shares, and the files are read at
      most once whatever the number of handlers. */
  method TwoHandlers(statics: DictionaryStatics, dir: Option<string>, isDirectory: bool,
                     files: Option<seq<DictFile>>, freeMemory: int, ambiguousName: string)
    returns (r1: Result<Trie>, r2: Result<Trie>)
    requires statics.Valid()
    modifies statics, statics.dict, statics.dict.tree, statics.dict.tree.gen, statics.ambiguous, statics.ambiguous.tree, statics.ambiguous.tree.gen
    ensures statics.Valid() && statics.directory == dir
    ensures r1.Success? ==> r1 == r2 == Success(statics.dict)
    ensures DirectoryOk(dir, isDirectory) || old(statics.loadCount) != 0 ==>
      r2 == Success(statics.dict) && statics.loadCount != 0
    ensures !DirectoryOk(dir, isDirectory) && old(statics.loadCount) == 0 ==>
      r1 == r2 == Failure(DictionaryHandle) && statics.loadCount == 0 && statics.dict.words == old(statics.dict.words)
    ensures old(statics.loadCount) != 0 ==>
      statics.dict.words == old(statics.dict.words) && statics.ambiguous.words == old(statics.ambiguous.words)
    ensures old(statics.loadCount) == 0 && DirectoryOk(dir, isDirectory) ==>
      var fs := if files.Some? then files.value else [];
      var n := Attempted(fs, true, freeMemory);
      && statics.dict.words == old(statics.dict.words) + FilesWords(fs[..n], Normal, freeMemory, ambiguousName)
      && statics.ambiguous.words == old(statics.ambiguous.words) + FilesWords(fs[..n], Ambiguous, freeMemory, ambiguousName)
  {
    var first := new FileDictionaryHandler(statics);
    first.SetDirectory(dir);
    r1 := first.GetDictionary(isDirectory, files, freeMemory, ambiguousName);
    var second := new FileDictionaryHandler(statics);
    second.SetDirectory(dir);
    r2 := second.GetDictionary(isDirectory, files, freeMemory, ambiguousName);
  }

  /** The directory check of loadAll: a non-empty name of a directory. */
  predicate DirectoryOk(directory: Option<string>, isDirectory: bool)
  {
    directory.Some? && directory.value != [] && isDirectory
  }

  /** The loop has visited slots 0..i: none was refused and each is now null,
      while the rest still hold their lines. */
  ghost predicate Visited(now: seq<Option<string>>, ls: seq<Option<string>>, refused: seq<bool>, i: nat)
  {
    && |now| == |ls| == |refused| && i <= |ls|
    && (forall j :: 0 <= j < i ==> !refused[j])
    && (forall j :: 0 <= j < |now| ==> now[j] == if j < i then None else ls[j])
  }

  /** One turn of loadFromFile's loop on a line: a null or empty line is
      skipped; otherwise the trimmed line is parsed and added to the
      dictionary, which may refuse it. */
  method LoadLine(d: Trie, line: Option<string>) returns (r: Outcome)
    requires d.Valid()
    modifies d, d.tree, d.tree.gen
    ensures d.Valid()
    ensures r.Pass? <==> !Refused(line)
    ensures r.Fail? ==> r.error == EntryError(LineEntry(line).value).value
    ensures d.words == old(d.words) + Added(line)
  {
    r := Pass;
    if line.Some? && line.value != [] {
      var elements := Parse(Trim(line.value));
      assert LineEntry(line) == Some(elements);
      r := d.Add(Some(elements.word), elements.pos);
      assert r.Pass? <==> EntryError(elements).None?;
      assert Added(line) == if r.Pass? then [(Lower(elements.word), elements.pos.value)] else [];
    }
  }

  /** The line loop of loadFromFile: over the first ActualSize lines, load
      each line and null its slot, until the dictionary refuses a line. */
  method LoadLines(d: Trie, lines: array<Option<string>>, freeMemory: int) returns (r: Outcome)
    requires d.Valid() && lines.Length <= IntMax
    modifies lines, d, d.tree, d.tree.gen
    ensures d.Valid()
    ensures var k := Stop(Refusals(old(lines[..])), ActualSize(freeMemory, lines.Length));
      && (r.Pass? <==> k == ActualSize(freeMemory, lines.Length))
      && (r.Fail? ==> r.error == EntryError(LineEntry(old(lines[k])).value).value)
      && (forall j :: 0 <= j < lines.Length ==> lines[j] == if j < k then None else old(lines[j]))
      && d.words == old(d.words) + Loaded(old(lines[..])[..k])
  {
    var size := ActualSize(freeMemory, lines.Length);
    ghost var ls := lines[..];
    ghost var refused := Refusals(ls);
    var i;
    r, i := LoadRun(d, lines, size, ls, refused);
    StopAt(refused, size, i);
  }

  /** The loop itself: it runs over slots 0..i and stops at size or at the
      first line the dictionary refuses. */
  method LoadRun(d: Trie, lines: array<Option<string>>, size: nat,
                 ghost ls: seq<Option<string>>, ghost refused: seq<bool>) returns (r: Outcome, i: nat)
    requires d.Valid() && size <= lines.Length && ls == lines[..] && refused == Refusals(ls)
    modifies lines, d, d.tree, d.tree.gen
    ensures d.Valid() && i <= size
    ensures Visited(lines[..], ls, refused, i) && d.words == old(d.words) + Loaded(ls[..i])
    ensures r.Pass? <==> i == size
    ensures r.Fail? ==> (refused[i] && r.error == EntryError(LineEntry(ls[i]).value).value)
  {
    ghost var base := d.words;
    i := 0;
    r := Pass;
    while i < size
      invariant i <= size <= lines.Length && d.Valid() && r.Pass?
      invariant Visited(lines[..], ls, refused, i)
      invariant d.words == base + Loaded(ls[..i])
    {
      assert refused[i] == Refused(ls[i]);
      r := LoadSlot(d, lines, i, ls, refused, base);
      if r.Fail? {
        return;
      }
      i := i + 1;
    }
  }

  /** Once Stop has found a refused entry, a longer run stops there too. */
  lemma {:induction false} StopKeeps(refused: seq<bool>, a: nat, b: nat)
    requires a <= b <= |refused| && Stop(refused, a) < a
    ensures Stop(refused, b) == Stop(refused, a)
    decreases b
  {
    if b > a {
      StopKeeps(refused, a, b - 1);
    }
  }

  /** The first refused entry is where Stop stops. */
  lemma StopFound(refused: seq<bool>, i: nat)
    requires i < |refused| && Stop(refused, i) == i && refused[i]
    ensures Stop(refused, |refused|) == i
  {
    assert Stop(refused, i + 1) == i;
    StopKeeps(refused, i + 1, |refused|);
  }

  /** The line loop stops where Stop says. */
  lemma StopAt(refused: seq<bool>, size: nat, i: nat)
    requires i <= size <= |refused| && (forall j :: 0 <= j < i ==> !refused[j]) && (i < size ==> refused[i])
    ensures Stop(refused, size) == i
  {
  }

  /** One turn of the line loop at slot i. */
  method LoadSlot(d: Trie, lines: array<Option<string>>, i: nat,
                  ghost ls: seq<Option<string>>, ghost refused: seq<bool>, ghost base: seq<(string, string)>)
    returns (r: Outcome)
    requires d.Valid() && i < lines.Length && i < |refused| && i < |ls| && (refused[i] <==> Refused(ls[i]))
    requires Visited(lines[..], ls, refused, i) && d.words == base + Loaded(ls[..i])
    modifies lines, d, d.tree, d.tree.gen
    ensures d.Valid()
    ensures r.Pass? ==> (Visited(lines[..], ls, refused, i + 1) && d.words == base + Loaded(ls[..i + 1]))
    ensures r.Fail? ==> (refused[i] && r.error == EntryError(LineEntry(ls[i]).value).value
                         && Visited(lines[..], ls, refused, i) && d.words == base + Loaded(ls[..i]))
  {
    ghost var before := lines[..];
    ghost var w0 := d.words;
    var line := lines[i];
    assert line == ls[i];
    r := LoadLine(d, line);
    assert lines[..] == before;
    WordsStep(base, ls, i, w0, d.words);
    if r.Pass? {
      lines[i] := None;
      assert lines[..] == before[i := None];
      VisitedStep(before, ls, refused, i);
    }
  }

  /** Nulling slot i of a visited array, when line i was not refused, visits
      one more slot. */
  lemma VisitedStep(now: seq<Option<string>>, ls: seq<Option<string>>, refused: seq<bool>, i: nat)
    requires Visited(now, ls, refused, i) && i < |ls| && !refused[i]
    ensures Visited(now[i := None], ls, refused, i + 1)
  {
  }

  /** The words after loading line i are the words of lines 0..i+1; a
      refused line adds none. */
  lemma WordsStep(base: seq<(string, string)>, ls: seq<Option<string>>, i: nat,
                  w0: seq<(string, string)>, w1: seq<(string, string)>)
    requires i < |ls| && w0 == base + Loaded(ls[..i]) && w1 == w0 + Added(ls[i])
    ensures w1 == base + Loaded(ls[..i + 1])
    ensures Refused(ls[i]) ==> w1 == w0
  {
    LoadedSnoc(ls, i);
    AppendAssoc(base, Loaded(ls[..i]), Added(ls[i]));
    if Refused(ls[i]) {
      RefusedAddsNothing(ls[i]);
      assert w0 + [] == w0;
    }
  }

  /** A refused line adds no word. */
  lemma RefusedAddsNothing(line: Option<string>)
    requires Refused(line)
    ensures Added(line) == []
  {
    var e := LineEntry(line).value;
    assert EntryError(e).Some?;
  }

  /** Loading one more line appends what it adds. */
  lemma LoadedSnoc(ls: seq<Option<string>>, i: nat)
    requires i < |ls|
    ensures Loaded(ls[..i + 1]) == Loaded(ls[..i]) + Added(ls[i])
  {
    assert ls[..i + 1][..i] == ls[..i];
  }
}
