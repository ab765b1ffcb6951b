/** ConfigWriter: the registry of output targets. Three maps keyed by a
    target's canonical path hold its open handle, its pending ConfigItem and
    its header text; BASE_DIR is the directory that names are resolved in.

    Canonicalisation (File.getCanonicalPath) and whether a FileWriter can
    create a file are given to the writer as functions. A handle is a value:
    the text written through it and whether it is still open. The file system
    is `disk`, path to contents as they stand after the last flush: opening a
    target truncates its file, closing an open handle flushes what was written
    through it, and deleting removes the file. */
module ConfigWriters {
  import opened Common
  import opened JavaStrings
  import opened ConfigItems

  /** An output handle (the BufferedWriter): what was written through it, and whether it is open. */
  datatype Handle = Handle(written: string, isOpen: bool)

  /** How `write` ends: normally, after an IOException it catches and logs, or
      with a NullPointerException it lets through to the caller. */
  datatype WriteOutcome = Completed | IoFailure | NullPointer

  /** The text `write` emits for the header lines: each one tagged and terminated. */
  function HeaderBlock(lines: seq<string>): string
  {
    if lines == [] then "" else HeaderTag + lines[0] + "\n" + HeaderBlock(lines[1..])
  }

  /** Emitting one more header line appends exactly that tagged line. */
  lemma {:induction false} HeaderBlockAppend(lines: seq<string>, line: string)
    ensures HeaderBlock(lines + [line]) == HeaderBlock(lines) + (HeaderTag + line + "\n")
    decreases |lines|
  {
    if lines == [] {
      assert lines + [line] == [line];
    } else {
      assert (lines + [line])[1..] == lines[1..] + [line];
      HeaderBlockAppend(lines[1..], line);
    }
  }

  /** The lines `write` emits for the header registered at `p`, if any. */
  function HeaderLines(header: map<string, string>, p: string): seq<string>
  {
    if p in header then JavaSplit(header[p], '\n') else []
  }

  /** One header comment line in front of a text does not change what it reads back as. */
  lemma ParseAfterHeaderLine(line: string, after: string)
    requires '\n' !in line
    ensures Parse(HeaderTag + line + "\n" + after) == Parse(after)
  {
    var tagged := HeaderTag + line;
    assert tagged[0] == '#';
    assert '\n' !in tagged by {
      assert tagged == ['#', ' '] + line;
    }
    assert HeaderTag + line + "\n" + after == tagged + ['\n'] + after;
    SplitAllCons(tagged, '\n', after);
    ParseSkipsComment(tagged, SplitAll(after, '\n'));
  }

  /** Header comment lines in front of a text do not change what it reads back as. */
  lemma {:induction false} ParseAfterHeader(lines: seq<string>, s: string)
    requires forall i :: 0 <= i < |lines| ==> '\n' !in lines[i]
    ensures Parse(HeaderBlock(lines) + s) == Parse(s)
    decreases |lines|
  {
    if lines != [] {
      var rest := lines[1..];
      assert forall i :: 0 <= i < |rest| ==> rest[i] == lines[i + 1];
      ParseAfterHeader(rest, s);
      var front := HeaderTag + lines[0] + "\n";
      assert HeaderBlock(lines) == front + HeaderBlock(rest);
      assert HeaderBlock(lines) + s == front + (HeaderBlock(rest) + s);
      ParseAfterHeaderLine(lines[0], HeaderBlock(rest) + s);
    } else {
      assert HeaderBlock(lines) + s == s;
    }
  }

  /** What `write` sends through a fresh handle reads back as the pending item,
      whatever the header: its lines are comments. */
  lemma WrittenReadsBack(header: map<string, string>, p: string, m: map<string, string>, ks: seq<string>)
    requires Enumerates(ks, m.Keys)
    requires Plain(m)
    ensures Parse(HeaderBlock(HeaderLines(header, p)) + Render(m, ks)) == m
  {
    if p in header {
      JavaSplitPieces(header[p], '\n');
    }
    ParseAfterHeader(HeaderLines(header, p), Render(m, ks));
    RoundTrip(m, ks);
  }

  /** The text `write` sends for the header lines: each one as a comment line, in order. */
  method HeaderText(lines: seq<string>) returns (out: string)
    ensures out == HeaderBlock(lines)
  {
    out := "";
    for i := 0 to |lines|
      invariant out == HeaderBlock(lines[..i])
    {
      HeaderBlockAppend(lines[..i], lines[i]);
      assert lines[..i + 1] == lines[..i] + [lines[i]];
      out := out + (HeaderTag + lines[i] + "\n");
    }
    assert lines[..|lines|] == lines;
  }

  /** The disk after closing handle `h` of path `p`: an open handle is flushed, a closed one changes nothing. */
  function Flushed(disk: map<string, string>, p: string, h: Handle): map<string, string>
  {
    if h.isOpen then disk[p := h.written] else disk
  }

  /** The disk after closing every handle of `handles`. */
  function FlushedAll(disk: map<string, string>, handles: map<string, Handle>): (d: map<string, string>)
    ensures forall p :: p in handles && handles[p].isOpen ==> p in d && d[p] == handles[p].written
    ensures forall p :: p in disk && !(p in handles && handles[p].isOpen) ==> p in d && d[p] == disk[p]
    ensures forall p :: p in d ==> p in disk || (p in handles && handles[p].isOpen)
  {
    map p | p in disk.Keys + (set q | q in handles && handles[q].isOpen) ::
      if p in handles && handles[p].isOpen then handles[p].written else disk[p]
  }

  /** With no handles registered, closing them all leaves the file system as it is. */
  lemma FlushedAllEmpty(disk: map<string, string>)
    ensures FlushedAll(disk, map[]) == disk
  {
    assert FlushedAll(disk, map[]).Keys == disk.Keys;
  }

  /** Flushing one more handle is flushing that handle after the others. */
  lemma FlushedAllStep(disk: map<string, string>, handles: map<string, Handle>, rest: set<string>, p: string)
    requires p in rest && p in handles
    ensures FlushedAll(disk, handles - (rest - {p})) == Flushed(FlushedAll(disk, handles - rest), p, handles[p])
  {
    var a := FlushedAll(disk, handles - (rest - {p}));
    var b := Flushed(FlushedAll(disk, handles - rest), p, handles[p]);
    assert a.Keys == b.Keys;
  }

  /** The handle table once every handle outside `pending` has been closed. */
  function ClosedExcept(handles: map<string, Handle>, pending: set<string>): map<string, Handle>
  {
    map p | p in handles :: if p in pending then handles[p] else handles[p].(isOpen := false)
  }

  /** Closing one more pending handle shrinks the pending set by that handle. */
  lemma ClosedExceptStep(handles: map<string, Handle>, pending: set<string>, p: string)
    requires p in pending && p in handles
    ensures ClosedExcept(handles, pending)[p := handles[p].(isOpen := false)] == ClosedExcept(handles, pending - {p})
  {
    var a := ClosedExcept(handles, pending)[p := handles[p].(isOpen := false)];
    var b := ClosedExcept(handles, pending - {p});
    assert a.Keys == b.Keys;
  }

  class ConfigWriter {
    /** File.getCanonicalPath of a path text. */
    const canon: string -> string
    /** Whether a FileWriter can create (or truncate) the file at a canonical path. */
    const creatable: string -> bool

    var configList: map<string, Handle>
    var configItem: map<string, ConfigItem>
    var header: map<string, string>
    var baseDir: Option<string>
    var disk: map<string, string>

    /** Distinct targets own distinct pending items. */
    ghost predicate Valid()
      reads this`configItem
    {
      forall p, q :: p in configItem && q in configItem && p != q ==> configItem[p] != configItem[q]
    }

    /** The pending content of every target, as field-to-value maps. */
    ghost function Pending(): map<string, map<string, string>>
      reads this`configItem, configItem.Values`items
    {
      map p | p in configItem :: configItem[p].items
    }

    /** BASE_DIR as Java's string concatenation renders it: "null" while unset. */
    function BaseText(): string
      reads this`baseDir
    {
      match baseDir
      case None => "null"
      case Some(d) => d
    }

    /** The canonical path of `BASE_DIR + "/" + name`, the key of every registry. */
    function Target(name: string): string
      reads this`baseDir
    {
      canon(BaseText() + "/" + name)
    }

    /** A writer with empty registries and no base directory, over the given file system. */
    constructor (canon: string -> string, creatable: string -> bool, disk: map<string, string>)
      ensures this.canon == canon && this.creatable == creatable && this.disk == disk
      ensures configList == map[] && configItem == map[] && header == map[] && baseDir == None
      ensures Valid()
    {
      this.canon := canon;
      this.creatable := creatable;
      this.disk := disk;
      configList := map[];
      configItem := map[];
      header := map[];
      baseDir := None;
    }

    /** Records the directory whether or not it exists or is a directory (that is only logged). */
    method SetBaseDir(dir: string)
      modifies this`baseDir
      ensures baseDir == Some(dir)
    {
      baseDir := Some(dir);
    }

    /** Creates or truncates the target's file and registers a fresh open handle
        for it, dropping any earlier handle without closing it. Fails (null)
        without a base directory or when the file cannot be created. */
    method Open(name: string) returns (r: Option<string>)
      modifies this`configList, this`disk
      ensures baseDir.None? || !creatable(Target(name)) ==>
                r == None && configList == old(configList) && disk == old(disk)
      ensures baseDir.Some? && creatable(Target(name)) ==>
                && r == Some(Target(name))
                && configList == old(configList)[Target(name) := Handle("", true)]
                && disk == old(disk)[Target(name) := ""]
    {
      if baseDir.None? {
        return None;
      }
      var path := Target(name);
      if !creatable(path) {
        return None;
      }
      disk := disk[path := ""];
      configList := configList[path := Handle("", true)];
      r := Some(path);
    }

    /** Sets the header of the target, replacing any earlier one. */
    method AddHeader(name: string, text: string)
      modifies this`header
      ensures header == old(header)[Target(name) := text]
    {
      var path := Target(name);
      if path in header {
        header := header - {path};
        header := header[path := text];
      } else {
        header := header[path := text];
      }
    }

    /** Reopens a registered target, truncating its file; its pending item and header stay. */
    method Clear(name: string)
      modifies this`configList, this`disk
      ensures Target(name) !in old(configList) ==> configList == old(configList) && disk == old(disk)
      ensures Target(name) in old(configList) && baseDir.Some? && creatable(Target(name)) ==>
                configList == old(configList)[Target(name) := Handle("", true)] &&
                disk == old(disk)[Target(name) := ""]
      ensures Target(name) in old(configList) && (baseDir.None? || !creatable(Target(name))) ==>
                configList == old(configList)[Target(name) := old(configList)[Target(name)].(isOpen := false)] &&
                disk == Flushed(old(disk), Target(name), old(configList)[Target(name)])
    {
      var path := Target(name);
      if path in configList {
        var _ := Close(name);
        var _ := Open(name);
      }
    }

    /** Closes the handle registered at `path`, flushing it if it was open. */
    method CloseHandle(path: string)
      requires path in configList
      modifies this`configList, this`disk
      ensures configList == old(configList)[path := old(configList)[path].(isOpen := false)]
      ensures disk == Flushed(old(disk), path, old(configList)[path])
    {
      var h := configList[path];
      if h.isOpen {
        disk := disk[path := h.written];
      }
      configList := configList[path := h.(isOpen := false)];
    }

    /** Closes the target's handle if registered; the entry itself stays in
        the registry, since close calls configList.remove(dFile) with a File,
        which matches no String key. */
    method Close(name: string) returns (r: string)
      modifies this`configList, this`disk
      ensures r == Target(name)
      ensures r !in old(configList) ==> configList == old(configList) && disk == old(disk)
      ensures r in old(configList) ==>
                && configList == old(configList)[r := old(configList)[r].(isOpen := false)]
                && disk == Flushed(old(disk), r, old(configList)[r])
    {
      var path := Target(name);
      if path in configList {
        CloseHandle(path);
        // configList.remove(dFile) passes a File, which matches no String key: the entry stays
      }
      r := path;
    }

    /** Like Close, and then removes the file, both only for a registered target. */
    method Delete(name: string) returns (r: string)
      modifies this`configList, this`disk
      ensures r == Target(name)
      ensures r !in old(configList) ==> configList == old(configList) && disk == old(disk)
      ensures r in old(configList) ==>
                && configList == old(configList)[r := old(configList)[r].(isOpen := false)]
                && disk == old(disk) - {r}
    {
      var path := Target(name);
      if path in configList {
        CloseHandle(path);
        // configList.remove(dFile) passes a File, which matches no String key: the entry stays
        disk := disk - {path};
      }
      r := path;
    }

    /** Closes every registered handle and empties the handle registry. */
    method CloseAll()
      modifies this`configList, this`disk
      ensures configList == map[]
      ensures disk == FlushedAll(old(disk), old(configList))
    {
      var keys := configList.Keys;
      while keys != {}
        invariant keys <= old(configList).Keys
        invariant configList == ClosedExcept(old(configList), keys)
        invariant disk == FlushedAll(old(disk), old(configList) - keys)
        decreases |keys|
      {
        var key :| key in keys;
        FlushedAllStep(old(disk), old(configList), keys, key);
        ClosedExceptStep(old(configList), keys, key);
        CloseHandle(key);
        keys := keys - {key};
      }
      assert old(configList) - {} == old(configList);
      configList := map[];
    }

    /** Adds one field to the pending item already registered at `path`; no
        other target's item shares it, so no other pending content changes. */
    method AddToPendingItem(path: string, field: string, value: string)
      requires Valid() && path in configItem
      modifies configItem[path]
      ensures Pending() == old(Pending())[path := old(Pending())[path][field := value]]
    {
      var item := configItem[path];
      item.AddOneItem(field, value);
      assert forall q :: q in configItem && q != path ==> configItem[q] != item;
    }

    /** Adds one field to the target's pending item, creating the item if there is none. */
    method AddSingleConfig(name: string, field: string, value: string)
      requires Valid()
      modifies this`configItem, configItem.Values
      ensures Valid()
      ensures Pending() == old(Pending())[Target(name) :=
                (if Target(name) in old(Pending()) then old(Pending())[Target(name)] else map[])[field := value]]
    {
      var path := Target(name);
      if path in configItem {
        AddToPendingItem(path, field, value);
      } else {
        var item := new ConfigItem();
        item.AddOneItem(field, value);
        assert forall q :: q in configItem ==> configItem[q] != item;
        configItem := configItem[path := item];
      }
    }

    /** Installs a fresh pending item built from the pairs, whatever was
        pending before: the test for an existing item calls
        configItem.containsKey(dFile) with a File, which matches no String key. Unpaired arrays leave the new item empty. */
    method AddMultipleConfig(name: string, fields: seq<string>, values: seq<string>)
      requires Valid()
      modifies this`configItem
      ensures Valid()
      ensures Pending() == old(Pending())[Target(name) :=
                if |fields| == |values| then AddAll(map[], fields, values) else map[]]
    {
      var path := Target(name);
      var item := new ConfigItem();
      item.AddAllItem(fields, values);
      assert forall q :: q in configItem ==> configItem[q] != item;
      configItem := configItem[path := item];
    }

    /** Appends the tagged header lines and then the pending item's
        serialisation to the target's open handle, which stays open. */
    method Write(name: string) returns (outcome: WriteOutcome, ghost order: seq<string>)
      modifies this`configList
      ensures Target(name) !in old(configList) ==>
                outcome == NullPointer && configList == old(configList)
      ensures Target(name) in old(configList) && !old(configList)[Target(name)].isOpen ==>
                && configList == old(configList)
                && outcome == if HeaderLines(header, Target(name)) == [] && Target(name) !in configItem
                              then NullPointer else IoFailure
      ensures Target(name) in old(configList) && old(configList)[Target(name)].isOpen && Target(name) !in configItem ==>
                && outcome == NullPointer
                && configList == old(configList)[Target(name) :=
                     Handle(old(configList)[Target(name)].written + HeaderBlock(HeaderLines(header, Target(name))), true)]
      ensures Target(name) in old(configList) && old(configList)[Target(name)].isOpen && Target(name) in configItem ==>
                && outcome == Completed
                && Enumerates(order, configItem[Target(name)].items.Keys)
                && configList == old(configList)[Target(name) :=
                     Handle(old(configList)[Target(name)].written + HeaderBlock(HeaderLines(header, Target(name)))
                            + Render(configItem[Target(name)].items, order), true)]
    {
      order := [];
      var path := Target(name);
      var lines := HeaderLines(header, path);
      if path !in configList {
        return NullPointer, order;
      }
      var h := configList[path];
      if !h.isOpen {
        if lines == [] && path !in configItem {
          return NullPointer, order;
        }
        return IoFailure, order;
      }
      var out := HeaderText(lines);
      if path !in configItem {
        // the header lines have gone out before the item lookup fails
        configList := configList[path := Handle(h.written + out, true)];
        return NullPointer, order;
      }
      var text;
      text, order := configItem[path].ToString();
      configList := configList[path := Handle(h.written + out + text, true)];
      outcome := Completed;
    }
  }

  /** For a target file that can be created: setting a base directory,
      opening the target, giving it the header "H1\nH2" and the field k=v,
      writing and closing leaves the file holding the two tagged header
      lines and then the field line. */
  method HeaderThenFieldScenario(canon: string -> string, creatable: string -> bool,
                                 disk: map<string, string>, dir: string)
    returns (contents: Option<string>)
    requires creatable(canon(dir + "/" + "a.properties"))
    ensures contents == Some("# H1\n# H2\nk=v\n")
  {
    var name := "a.properties";
    var w := PrepareScenario(canon, creatable, disk, dir);
    ghost var p := w.Target(name);
    var outcome;
    ghost var order;
    outcome, order := w.Write(name);
    assert w.configList[p] == Handle("" + HeaderBlock(HeaderLines(w.header, p)) + Render(w.configItem[p].items, order), true);
    ScenarioText(w.header, p, w.configItem[p].items, order);
    ghost var written := w.configList[p].written;
    assert written == "# H1\n# H2\nk=v\n";
    var closed := w.Close(name);
    assert closed == p && p in w.disk && w.disk[p] == written;
    contents := if closed in w.disk then Some(w.disk[closed]) else None;
  }

  /** The scenario's state just before `write`: one open, empty target with
      its header and one pending field. */
  method PrepareScenario(canon: string -> string, creatable: string -> bool,
                         disk: map<string, string>, dir: string)
    returns (w: ConfigWriter)
    requires creatable(canon(dir + "/" + "a.properties"))
    ensures fresh(w) && w.baseDir == Some(dir)
    ensures w.Target("a.properties") == canon(dir + "/" + "a.properties")
    ensures w.configList == map[w.Target("a.properties") := Handle("", true)]
    ensures w.header == map[w.Target("a.properties") := "H1\nH2"]
    ensures w.Target("a.properties") in w.configItem
    ensures w.configItem[w.Target("a.properties")].items == map["k" := "v"]
  {
    var name := "a.properties";
    w := new ConfigWriter(canon, creatable, disk);
    w.SetBaseDir(dir);
    ghost var p := w.Target(name);
    assert p == canon(dir + "/" + name);
    var target := w.Open(name);
    assert w.configList == map[p := Handle("", true)];
    w.AddHeader(name, "H1\nH2");
    assert w.header == map[p := "H1\nH2"];
    w.AddSingleConfig(name, "k", "v");
    assert w.Pending() == map[p := map["k" := "v"]];
    assert p in w.configItem && w.configItem[p].items == map["k" := "v"];
  }

  /** The text written for the header "H1\nH2" and the single field k=v. */
  lemma ScenarioText(header: map<string, string>, p: string, items: map<string, string>, order: seq<string>)
    requires header == map[p := "H1\nH2"] && items == map["k" := "v"]
    requires Enumerates(order, items.Keys)
    ensures "" + HeaderBlock(HeaderLines(header, p)) + Render(items, order) == "# H1\n# H2\nk=v\n"
  {
    HeaderTwoLines();
    assert HeaderLines(header, p) == ["H1", "H2"];
    SingleKeyOrder(order, "k");
    HeaderBlockTwo();
    assert Render(items, ["k"]) == "k=v\n";
    assert "" + "# H1\n# H2\n" + "k=v\n" == "# H1\n# H2\nk=v\n";
  }

  /** The comment block for the lines "H1" and "H2". */
  lemma HeaderBlockTwo()
    ensures HeaderBlock(["H1", "H2"]) == "# H1\n# H2\n"
  {
    assert ["H1", "H2"][1..] == ["H2"];
    assert HeaderBlock(["H2"]) == "# H2\n";
  }

  /** The header "H1\nH2" splits into its two lines. */
  lemma HeaderTwoLines()
    ensures JavaSplit("H1\nH2", '\n') == ["H1", "H2"]
  {
    var s := "H1\nH2";
    assert s == "H1" + ['\n'] + "H2";
    SplitAllCons("H1", '\n', "H2");
    assert SplitAll("H2", '\n') == ["H2"];
    JavaSplitKeepsAll(s, '\n');
  }

  /** The only enumeration of a one-key set is that key. */
  lemma SingleKeyOrder(order: seq<string>, k: string)
    requires Enumerates(order, {k})
    ensures order == [k]
  {
    EnumeratesLength(order, {k});
    assert order[0] in {k};
  }
}
