/** ConfigItem: the container ConfigWriter uses for each target's pending
    fields. Its `items` map is updated in place; `toString` serialises it as
    one `field=value` line per field, in the key set's iteration order. */
module ConfigItems {
  import opened Common
  import opened JavaStrings

  /** Tag written in front of every header line (ConfigItem.HEADER_TAG). */
  const HeaderTag: string := "# "

  /** One binding as text, `field=value`, without its line break. */
  function Entry(field: string, value: string): string
  {
    field + "=" + value
  }

  /** One serialised line: the binding's entry and a line break. */
  function Line(field: string, value: string): string
  {
    Entry(field, value) + "\n"
  }

  /** The text `toString` builds when the key set yields the keys in the order `ks`. */
  function Render(m: map<string, string>, ks: seq<string>): string
    requires forall k :: k in ks ==> k in m
  {
    if ks == [] then "" else Line(ks[0], m[ks[0]]) + Render(m, ks[1..])
  }

  /** Rendering one more key appends exactly that key's line. */
  lemma {:induction false} RenderAppend(m: map<string, string>, ks: seq<string>, k: string)
    requires forall x :: x in ks ==> x in m
    requires k in m
    ensures Render(m, ks + [k]) == Render(m, ks) + Line(k, m[k])
    decreases |ks|
  {
    if ks != [] {
      assert (ks + [k])[1..] == ks[1..] + [k];
      RenderAppend(m, ks[1..], k);
    } else {
      assert ks + [k] == [k];
    }
  }

  /** Folding `addOneItem` left over the pairs, in index order. */
  function AddAll(m: map<string, string>, fs: seq<string>, vs: seq<string>): map<string, string>
    requires |fs| == |vs|
    decreases |fs|
  {
    if fs == [] then m else AddAll(m[fs[0] := vs[0]], fs[1..], vs[1..])
  }

  /** Bulk insertion adds exactly the listed fields, keeps every other binding,
      and binds a field listed more than once to the value of its last occurrence. */
  lemma {:induction false} AddAllLastWins(m: map<string, string>, fs: seq<string>, vs: seq<string>)
    requires |fs| == |vs|
    ensures AddAll(m, fs, vs).Keys == m.Keys + set f | f in fs
    ensures forall k :: k in m && k !in fs ==> AddAll(m, fs, vs)[k] == m[k]
    ensures forall j :: 0 <= j < |fs| && (forall j' :: j < j' < |fs| ==> fs[j'] != fs[j]) ==>
              AddAll(m, fs, vs)[fs[j]] == vs[j]
    decreases |fs|
  {
    if fs != [] {
      var m' := m[fs[0] := vs[0]];
      var r := AddAll(m, fs, vs);
      AddAllLastWins(m', fs[1..], vs[1..]);
      assert r == AddAll(m', fs[1..], vs[1..]);
      assert (set f | f in fs) == {fs[0]} + set f | f in fs[1..];
      forall k | k in m && k !in fs
        ensures r[k] == m[k]
      {
        assert k != fs[0];
      }
      forall j | 0 <= j < |fs| && (forall j' :: j < j' < |fs| ==> fs[j'] != fs[j])
        ensures r[fs[j]] == vs[j]
      {
        if j == 0 {
          assert fs[0] !in fs[1..];
        } else {
          assert fs[1..][j - 1] == fs[j];
          assert forall j' :: j - 1 < j' < |fs[1..]| ==> fs[1..][j'] != fs[1..][j - 1];
        }
      }
    }
  }

  /** A line split at its first '=' (a line without one is all key). */
  function SplitAtFirst(line: string, c: char): (string, string)
  {
    if c in line then
      var i := IndexOf(line, c);
      (line[..i], line[i + 1..])
    else (line, "")
  }

  /** Reference reader for `key=value` text: one entry per line that is
      neither empty nor a '#' comment, a later line for the same key
      overriding an earlier one. */
  function ParseLines(lines: seq<string>): map<string, string>
  {
    if lines == [] then map[]
    else
      var rest := ParseLines(lines[1..]);
      if lines[0] == "" || lines[0][0] == '#' then rest
      else
        var (k, v) := SplitAtFirst(lines[0], '=');
        if k in rest then rest else rest[k := v]
  }

  /** Reads back serialised item text. */
  function Parse(s: string): map<string, string>
  {
    ParseLines(SplitAll(s, '\n'))
  }

  /** No key and no value contains a line break. */
  ghost predicate NoLineBreaks(m: map<string, string>)
  {
    forall k :: k in m ==> '\n' !in k && '\n' !in m[k]
  }

  /** No key contains '=' or a line break or starts with '#', and no value
      contains a line break. */
  ghost predicate Plain(m: map<string, string>)
  {
    forall k :: k in m ==> '=' !in k && '\n' !in k && (k == [] || k[0] != '#') && '\n' !in m[k]
  }

  /** A comment line contributes nothing. */
  lemma ParseSkipsComment(line: string, lines: seq<string>)
    requires line != [] && line[0] == '#'
    ensures ParseLines([line] + lines) == ParseLines(lines)
  {
    assert ([line] + lines)[1..] == lines;
  }

  /** The serialised text of a non-empty key list starts with the first key's line. */
  lemma RenderCons(m: map<string, string>, ks: seq<string>)
    requires forall k :: k in ks ==> k in m
    requires ks != []
    ensures Render(m, ks) == Line(ks[0], m[ks[0]]) + Render(m, ks[1..])
  {
  }

  /** The `field=value` entries of the listed keys, in order, without line breaks. */
  function Entries(m: map<string, string>, ks: seq<string>): (r: seq<string>)
    requires forall k :: k in ks ==> k in m
    ensures |r| == |ks|
  {
    if ks == [] then [] else [Entry(ks[0], m[ks[0]])] + Entries(m, ks[1..])
  }

  /** Entry `i` is the binding of the `i`-th listed key. */
  lemma {:induction false} EntriesAt(m: map<string, string>, ks: seq<string>, i: nat)
    requires forall k :: k in ks ==> k in m
    requires i < |ks|
    ensures Entries(m, ks)[i] == ks[i] + "=" + m[ks[i]]
    decreases i
  {
    if i > 0 {
      EntriesAt(m, ks[1..], i - 1);
    }
  }

  /** The serialised text splits into its entries followed by the empty piece
      after the last break. */
  lemma {:induction false} RenderSplit(m: map<string, string>, ks: seq<string>)
    requires forall k :: k in ks ==> k in m
    requires NoLineBreaks(m)
    ensures SplitAll(Render(m, ks), '\n') == Entries(m, ks) + [""]
    decreases |ks|
  {
    if ks != [] {
      var line, tail := Entry(ks[0], m[ks[0]]), ks[1..];
      RenderCons(m, ks);
      assert '\n' !in line;
      SplitAllCons(line, '\n', Render(m, tail));
      RenderSplit(m, tail);
      assert Entries(m, ks) + [""] == [line] + (Entries(m, tail) + [""]);
    } else {
      assert SplitAll("", '\n') == [""];
    }
  }

  /** The serialised text splits into one `field=value` line per listed key,
      in the listed order, followed by the empty piece after the last break. */
  lemma RenderLines(m: map<string, string>, ks: seq<string>)
    requires forall k :: k in ks ==> k in m
    requires NoLineBreaks(m)
    ensures |SplitAll(Render(m, ks), '\n')| == |ks| + 1
    ensures SplitAll(Render(m, ks), '\n')[|ks|] == ""
    ensures forall i :: 0 <= i < |ks| ==> SplitAll(Render(m, ks), '\n')[i] == ks[i] + "=" + m[ks[i]]
  {
    RenderSplit(m, ks);
    forall i | 0 <= i < |ks|
      ensures SplitAll(Render(m, ks), '\n')[i] == ks[i] + "=" + m[ks[i]]
    {
      EntriesAt(m, ks, i);
    }
  }

  /** A line `k=v` whose key holds no '=' splits back into `k` and `v`. */
  lemma SplitLine(k: string, v: string)
    requires '=' !in k
    ensures SplitAtFirst(k + "=" + v, '=') == (k, v)
    ensures k + "=" + v != ""
    ensures (k + "=" + v)[0] == if k == [] then '=' else k[0]
  {
    var line := k + "=" + v;
    assert line == k + ['='] + v;
    IndexOfAfter(k, '=', v);
    assert line[..|k|] == k && line[|k| + 1..] == v;
    assert line[|k|] == '=';
  }

  /** Reading a `k=v` line in front of lines that do not mention `k` adds exactly that binding. */
  lemma ParseFreshLine(k: string, v: string, lines: seq<string>)
    requires '=' !in k && (k == [] || k[0] != '#')
    requires k !in ParseLines(lines)
    ensures ParseLines([k + "=" + v] + lines) == ParseLines(lines)[k := v]
  {
    SplitLine(k, v);
    assert ([k + "=" + v] + lines)[1..] == lines;
  }

  /** The bindings of `[k] + tail` are those of `tail` plus the binding of `k`. */
  lemma BindingsCons(m: map<string, string>, ks: seq<string>)
    requires forall k :: k in ks ==> k in m
    requires ks != []
    ensures (map x | x in ks[1..] :: m[x])[ks[0] := m[ks[0]]] == map x | x in ks :: m[x]
  {
    assert forall x :: x in ks <==> x == ks[0] || x in ks[1..];
  }

  /** Reading serialised text back yields the bindings of the listed keys. */
  lemma {:induction false} ParseRender(m: map<string, string>, ks: seq<string>)
    requires forall k :: k in ks ==> k in m
    requires forall i, j :: 0 <= i < j < |ks| ==> ks[i] != ks[j]
    requires Plain(m)
    ensures Parse(Render(m, ks)) == map k | k in ks :: m[k]
    decreases |ks|
  {
    if ks != [] {
      var k, tail := ks[0], ks[1..];
      var rest := Render(m, tail);
      RenderCons(m, ks);
      SplitAllCons(k + "=" + m[k], '\n', rest);
      assert forall i, j :: 0 <= i < j < |tail| ==> tail[i] != tail[j];
      ParseRender(m, tail);
      assert k !in tail by {
        assert forall j :: 0 <= j < |tail| ==> tail[j] == ks[j + 1];
      }
      assert Parse(rest) == map x | x in tail :: m[x];
      assert k !in Parse(rest);
      ParseFreshLine(k, m[k], SplitAll(rest, '\n'));
      assert Parse(Render(m, ks)) == ParseLines([k + "=" + m[k]] + SplitAll(rest, '\n'));
      assert Parse(Render(m, ks)) == Parse(rest)[k := m[k]];
      BindingsCons(m, ks);
    } else {
      assert SplitAll("", '\n') == [""];
      assert ParseLines([""]) == ParseLines([]);
      assert Parse(Render(m, ks)) == map[];
    }
  }

  /** Round trip: the serialisation of a plain item, in any key order, reads back as the item. */
  lemma RoundTrip(m: map<string, string>, ks: seq<string>)
    requires Enumerates(ks, m.Keys)
    requires Plain(m)
    ensures Parse(Render(m, ks)) == m
  {
    ParseRender(m, ks);
  }

  /** The serialisation has exactly as many line breaks, hence lines, as the item has fields. */
  lemma LineCountIsSize(m: map<string, string>, ks: seq<string>)
    requires Enumerates(ks, m.Keys)
    requires NoLineBreaks(m)
    ensures |SplitAll(Render(m, ks), '\n')| == |m| + 1
  {
    EnumeratesLength(ks, m.Keys);
    RenderLines(m, ks);
  }

  /** An item with no fields serialises to the empty text. */
  lemma EmptyRendersEmpty(ks: seq<string>)
    requires Enumerates(ks, {})
    ensures Render(map[], ks) == ""
  {
    EnumeratesLength(ks, {});
  }

  class ConfigItem {
    var items: map<string, string>

    /** A new item holds no fields. */
    constructor ()
      ensures items == map[]
    {
      items := map[];
    }

    /** Number of distinct fields. */
    function Size(): (n: nat)
      reads this`items
      ensures n == 0 <==> items == map[]
    {
      |items|
    }

    /** Binds `field` to `value`, replacing an earlier value; other fields keep theirs. */
    method AddOneItem(field: string, value: string)
      modifies this`items
      ensures items == old(items)[field := value]
      ensures forall k :: k in old(items) && k != field ==> k in items && items[k] == old(items)[k]
      ensures Size() == if field in old(items) then old(Size()) else old(Size()) + 1
    {
      if field !in items {
        items := items - {field};
        items := items[field := value];
      } else {
        items := items[field := value];
      }
    }

    /** Inserts the pairs in index order; unpaired arrays change nothing. */
    method AddAllItem(fields: seq<string>, values: seq<string>)
      modifies this`items
      ensures |fields| != |values| ==> items == old(items)
      ensures |fields| == |values| ==> items == AddAll(old(items), fields, values)
    {
      var length := |fields|;
      if |fields| != |values| {
        return;
      }
      for i := 0 to length
        invariant AddAll(items, fields[i..], values[i..]) == AddAll(old(items), fields, values)
      {
        assert fields[i..][1..] == fields[i + 1..] && values[i..][1..] == values[i + 1..];
        AddOneItem(fields[i], values[i]);
      }
    }

    /** The serialisation: one line per field, in the key set's iteration order `order`. */
    method ToString() returns (s: string, ghost order: seq<string>)
      ensures Enumerates(order, items.Keys)
      ensures s == Render(items, order)
      ensures s == "" <==> items == map[]
    {
      var keys := items.Keys;
      var out := "";
      order := [];
      while keys != {}
        invariant keys <= items.Keys
        invariant forall i, j :: 0 <= i < j < |order| ==> order[i] != order[j]
        invariant forall k :: k in order <==> k in items.Keys - keys
        invariant out == Render(items, order)
        decreases |keys|
      {
        var key :| key in keys;
        assert key !in order;
        out := out + (key + "=" + items[key] + "\n");
        RenderAppend(items, order, key);
        order := order + [key];
        keys := keys - {key};
      }
      EnumeratesLength(order, items.Keys);
      s := out;
    }
  }
}
