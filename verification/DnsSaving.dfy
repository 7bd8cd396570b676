/**
 What compression is for: a name that has been written before takes two bytes, a name that ends in
 one takes two bytes from there on, and without compression the bytes are the labels.
 */
module DnsSaving {
  import opened Bytes
  import opened DnsName
  import opened DnsCompression

  // ---------------------------------------------------------------- names up to case

  /** Two bytes are the same letter in another case, or the same byte. */
  ghost predicate SameLetter(a: Byte, b: Byte) {
    a == b || (65 <= a <= 90 && b == a + 32) || (65 <= b <= 90 && a == b + 32)
  }

  ghost predicate SameName(a: Text, b: Text) {
    |a| == |b| && forall i :: 0 <= i < |a| ==> SameLetter(a[i], b[i])
  }

  lemma FoldIff(a: Text, b: Text)
    ensures Fold(a) == Fold(b) <==> SameName(a, b)
  {
    hide Fold;
    if Fold(a) == Fold(b) {
      forall i | 0 <= i < |a| ensures SameLetter(a[i], b[i]) {
        assert Fold(a)[i] == Fold(b)[i];
      }
    }
  }

  /** A name is found exactly when the table has it in some spelling. */
  lemma LookupIff(table: seq<Entry>, name: Text)
    ensures Lookup(table, name).Some? <==> exists e :: e in table && SameName(e.name, name)
  {
    hide Lookup, Fold, SameName;
    var r := Lookup(table, name);
    if r.Some? {
      FoldIff(r.value.name, name);
    } else {
      forall e | e in table ensures !SameName(e.name, name) {
        FoldIff(e.name, name);
      }
    }
  }

  // ---------------------------------------------------------------- the table only grows

  ghost predicate Extends(a: seq<Entry>, b: seq<Entry>) {
    |a| <= |b| && b[..|a|] == a
  }

  lemma ExtendsTrans(a: seq<Entry>, b: seq<Entry>, c: seq<Entry>)
    requires Extends(a, b) && Extends(b, c)
    ensures Extends(a, c)
  {
    assert c[..|a|] == c[..|b|][..|a|];
  }

  lemma ExtendsAppend(table: seq<Entry>, name: Text, off: nat)
    ensures Extends(table, Append(table, name, off)) && Extends(table, table)
  {
  }

  lemma {:induction false} TailExtends(name: Text, off: nat, table: seq<Entry>, comp: bool)
    ensures var e := EncodeTail(name, off, table, comp);
            Extends(table, e.table) && (Lookup(table, name).None? ==> Extends(Append(table, name, off), e.table))
    decreases |name|, 1
  {
    hide Extends, Lookup, EncodeLabel, EncodeTail, Append;
    ExtendsAppend(table, name, off);
    TailTurn(name, off, table, comp);
    if Lookup(table, name).None? {
      LabelExtends(name, off, Append(table, name, off), comp);
      ExtendsTrans(table, Append(table, name, off), EncodeTail(name, off, table, comp).table);
    } else {
      LabelExtends(name, off, table, comp);
    }
  }

  lemma {:induction false} LabelExtends(name: Text, off: nat, table: seq<Entry>, comp: bool)
    ensures Extends(table, EncodeLabel(name, off, table, comp).table)
    decreases |name|, 0
  {
    hide Extends, EncodeTail, EncodeLabel, LabelLen;
    LabelCases(name, off, table, comp);
    ExtendsAppend(table, name, off);
    var n := LabelLen(name);
    if n < |name| {
      TailExtends(name[n + 1..], off + 1 + n, table, comp);
    }
  }

  lemma SpecExtends(name: Text, off: nat, table: seq<Entry>, comp: bool)
    ensures var e := EncodeSpec(name, off, table, comp);
            Extends(table, e.table) && (Lookup(table, name).None? ==> Extends(Append(table, name, off), e.table))
  {
    hide Extends, Lookup, EncodeTail, Append;
    ExtendsAppend(table, name, off);
    ExtendsAppend(Append(table, name, off), name, off);
    TailExtends(name, off, table, comp);
  }

  lemma FoundInExtension(a: seq<Entry>, b: seq<Entry>, name: Text)
    requires Extends(a, b) && Lookup(a, name).Some?
    ensures Lookup(b, name).Some?
  {
    hide Lookup, Fold;
    var e := Lookup(a, name).value;
    assert e in b[..|a|];
    assert e in b;
  }

  lemma FoundAfterAppend(table: seq<Entry>, name: Text, off: nat)
    requires off <= 0x3fff && name != []
    ensures Lookup(Append(table, name, off), name).Some?
  {
    hide Lookup, Fold;
    var t := Append(table, name, off);
    assert t[|table|] == Entry(name, off);
    assert Entry(name, off) in t;
  }

  /** A name that has been written within reach of a pointer is in the table. */
  lemma Recorded(name: Text, off: nat, table: seq<Entry>, comp: bool)
    requires Lookup(table, name).Some? || (off <= 0x3fff && name != [])
    ensures Lookup(EncodeSpec(name, off, table, comp).table, name).Some?
  {
    hide Extends, Lookup, EncodeSpec, Append;
    SpecExtends(name, off, table, comp);
    var t := EncodeSpec(name, off, table, comp).table;
    if Lookup(table, name).Some? {
      FoundInExtension(table, t, name);
    } else {
      FoundAfterAppend(table, name, off);
      FoundInExtension(Append(table, name, off), t, name);
    }
  }

  // ---------------------------------------------------------------- no name twice

  /** No name is in the table in two spellings. */
  ghost predicate Unique(table: seq<Entry>) {
    forall i, j :: 0 <= i < j < |table| ==> Fold(table[i].name) != Fold(table[j].name)
  }

  lemma UniqueAppend(table: seq<Entry>, name: Text, off: nat)
    requires Unique(table) && Lookup(table, name).None?
    ensures Unique(Append(table, name, off))
  {
    hide Lookup, Fold;
    forall i | 0 <= i < |table| ensures Fold(table[i].name) != Fold(name) {
      assert table[i] in table;
    }
  }

  lemma {:induction false} TailUnique(name: Text, off: nat, table: seq<Entry>, comp: bool)
    requires Unique(table)
    ensures Unique(EncodeTail(name, off, table, comp).table)
    decreases |name|, 1
  {
    hide Unique, Lookup, EncodeLabel, EncodeTail, Append;
    TailTurn(name, off, table, comp);
    if Lookup(table, name).None? {
      UniqueAppend(table, name, off);
      LabelUnique(name, off, Append(table, name, off), comp);
    } else {
      LabelUnique(name, off, table, comp);
    }
  }

  lemma {:induction false} LabelUnique(name: Text, off: nat, table: seq<Entry>, comp: bool)
    requires Unique(table)
    ensures Unique(EncodeLabel(name, off, table, comp).table)
    decreases |name|, 0
  {
    hide Unique, EncodeTail, EncodeLabel, LabelLen;
    LabelCases(name, off, table, comp);
    var n := LabelLen(name);
    if n < |name| {
      TailUnique(name[n + 1..], off + 1 + n, table, comp);
    }
  }

  /** Encoding a name records no name twice. */
  lemma SpecUnique(name: Text, off: nat, table: seq<Entry>, comp: bool)
    requires Unique(table)
    ensures Unique(EncodeSpec(name, off, table, comp).table)
  {
    hide Unique, Lookup, EncodeTail, Append;
    TailUnique(name, off, table, comp);
    if Lookup(table, name).None? {
      UniqueAppend(table, name, off);
    }
  }

  // ---------------------------------------------------------------- two bytes

  /** A pointer is sixteen bits: two ones, then the offset. */
  lemma PointerBits(pos: nat)
    requires pos <= 0x3fff
    ensures var hi: int, lo: int := Pointer(pos)[0], Pointer(pos)[1]; hi * 256 + lo == 0xc000 + pos
  {
  }

  /** A known name is a pointer, and nothing is recorded. */
  lemma KnownIsPointer(name: Text, off: nat, table: seq<Entry>)
    requires Lookup(table, name).Some?
    ensures EncodeSpec(name, off, table, true) == Encoding(Pointer(Lookup(table, name).value.pos), table, true)
  {
    hide Lookup, EncodeLabel;
  }

  /** A new name whose tail is known is its first label and a pointer. */
  lemma KnownTail(name: Text, off: nat, table: seq<Entry>)
    requires var n := LabelLen(name); 1 <= n < |name| && Lookup(table, name[n + 1..]).Some?
    requires Lookup(table, name).None?
    ensures var n := LabelLen(name);
            var tail := Lookup(table, name[n + 1..]).value;
            EncodeTail(name, off, table, true).bytes == [n % 256] + name[..n] + Pointer(tail.pos)
  {
    hide Lookup, EncodeTail, EncodeLabel, LabelLen, Append;
    var n := LabelLen(name);
    var t := Append(table, name, off);
    TailTurn(name, off, table, true);
    LabelCases(name, off, t, true);
    ShorterStays(table, name, off, name[n + 1..]);
    TailTurn(name[n + 1..], off + 1 + n, t, true);
  }

  /** Recording a longer name does not hide a shorter one. */
  lemma {:induction false} ShorterStays(table: seq<Entry>, name: Text, off: nat, other: Text)
    requires Lookup(table, other).Some?
    ensures Lookup(Append(table, name, off), other) == Lookup(table, other)
  {
    hide Fold;
    if off <= OFFSET_MASK && name != [] && Fold(table[0].name) != Fold(other) {
      ShorterStays(table[1..], name, off, other);
      assert (table + [Entry(name, off)])[1..] == table[1..] + [Entry(name, off)];
    }
  }

  /** What a message has recorded stays recorded. */
  lemma {:induction false} WriteExtends(st: State, start: nat, items: seq<Item>, k: nat)
    requires start <= |st.msg| && k <= |items|
    ensures Extends(Write(st, start, items[..k]).table, Write(st, start, items).table)
    decreases |items|
  {
    hide Extends, EncodeSpec;
    var all := Write(st, start, items);
    ExtendsAppend(all.table, [], 0);
    if k < |items| {
      var init := items[..|items| - 1];
      WriteExtends(st, start, init, k);
      assert init[..k] == items[..k];
      var mid := Write(st, start, init);
      ItemExtends(mid, start, items[|items| - 1]);
      ExtendsTrans(Write(st, start, items[..k]).table, mid.table, all.table);
    } else {
      assert items[..k] == items;
    }
  }

  lemma ItemExtends(st: State, start: nat, item: Item)
    requires start <= |st.msg|
    ensures Extends(st.table, WriteItem(st, start, item).table)
  {
    hide Extends, EncodeSpec;
    ExtendsAppend(st.table, [], 0);
    if item.Name? {
      SpecExtends(item.name, |st.msg| - start, st.table, item.comp);
    }
  }

  /**
   In any message, a name that was written before, in any spelling and within reach of a pointer,
   takes exactly two bytes when it is written again with compression.
   */
  lemma RepeatedTakesTwo(head: seq<Byte>, start: nat, items: seq<Item>, j: nat, k: nat)
    requires start <= |head| && j < k < |items| && items[j].Name? && items[k].Name? && items[k].comp
    requires SameName(items[j].name, items[k].name) && items[j].name != []
    requires |Write(State(head, []), start, items[..j]).msg| - start <= 0x3fff
    ensures |Write(State(head, []), start, items[..k + 1]).msg| == |Write(State(head, []), start, items[..k]).msg| + 2
  {
    hide Extends, EncodeSpec, Lookup, Fold, SameName, Write;
    var st := State(head, []);
    var a, b := Write(st, start, items[..j]), Write(st, start, items[..j + 1]);
    var c := Write(st, start, items[..k]);
    WriteNext(st, start, items, j);
    WriteNext(st, start, items, k);
    Recorded(items[j].name, |a.msg| - start, a.table, items[j].comp);
    WriteExtends(st, start, items[..k], j + 1);
    assert items[..k][..j + 1] == items[..j + 1];
    FoundInExtension(b.table, c.table, items[j].name);
    FoldIff(items[j].name, items[k].name);
    assert Lookup(c.table, items[k].name).Some? by { SameFound(c.table, items[j].name, items[k].name); }
    KnownIsPointer(items[k].name, |c.msg| - start, c.table);
  }

  lemma SameFound(table: seq<Entry>, a: Text, b: Text)
    requires Fold(a) == Fold(b) && Lookup(table, a).Some?
    ensures Lookup(table, b).Some?
  {
    hide Fold, Lookup;
  }

  // ---------------------------------------------------------------- without compression

  /** Section 3.1 of RFC 1035: each label after its length, and a zero. */
  function WireLabels(ls: seq<Text>): (r: seq<Byte>) {
    if ls == [] then [0] else [|ls[0]| % 256] + ls[0] + WireLabels(ls[1..])
  }

  lemma {:induction false} PlainTail(name: Text, off: nat, table: seq<Entry>)
    requires Labelled(name)
    ensures EncodeTail(name, off, table, false).bytes == WireLabels(Labels(name))
    ensures EncodeTail(name, off, table, false).ok
    decreases |name|
  {
    hide Lookup, EncodeTail, EncodeLabel, LabelLen, Append, Labelled, Labels;
    TailTurn(name, off, table, false);
    var t := if Lookup(table, name).None? then Append(table, name, off) else table;
    LabelCases(name, off, t, false);
    if name == [] {
      NoLabels();
    } else {
      LabelsCons(name);
      var n := LabelLen(name);
      if n == |name| {
        assert Labels(name)[1..] == [] && [n % 256] + name + [0] == [n % 256] + Labels(name)[0] + WireLabels([]);
      } else {
        PlainTail(name[n + 1..], off + 1 + n, t);
        assert Labels(name)[1..] == Labels(name[n + 1..]);
      }
    }
  }

  /** Without compression the bytes of a name are its labels, whatever the table knows. */
  lemma PlainBytes(name: Text, off: nat, table: seq<Entry>)
    requires Labelled(name)
    ensures EncodeSpec(name, off, table, false).bytes == WireLabels(Labels(name))
    ensures EncodeSpec([DOT], off, table, false).bytes == [0]
  {
    hide Lookup, EncodeTail, Append, Labelled, Labels, WireLabels;
    DotNotLabelled();
    PlainTail(name, off, table);
  }

  // ---------------------------------------------------------------- what is refused

  /** A dot at the start or right after another one. */
  ghost predicate EmptyLabelAt(name: Text, i: nat) {
    i < |name| && name[i] == DOT && (i == 0 || name[i - 1] == DOT)
  }

  ghost predicate EmptyLabel(name: Text) {
    exists i: nat :: EmptyLabelAt(name, i)
  }

  lemma EmptyBehind(name: Text, n: nat, i: nat)
    requires n < |name| && name[n] == DOT && EmptyLabelAt(name[n + 1..], i)
    ensures EmptyLabelAt(name, n + 1 + i)
  {
  }

  lemma EmptyAhead(name: Text, n: nat, i: nat)
    requires 0 < n <= |name| && (forall k :: 0 <= k < n ==> name[k] != DOT) && EmptyLabelAt(name, i)
    ensures n < i && EmptyLabelAt(name[n + 1..], i - (n + 1))
  {
    assert i != 0 && i != n && !(i < n);
  }

  lemma EmptyLabelCons(name: Text)
    requires name != []
    ensures var n := LabelLen(name);
            EmptyLabel(name) <==> n == 0 || (n < |name| && EmptyLabel(name[n + 1..]))
  {
    hide LabelLen, EmptyLabelAt;
    LabelLenSpec(name);
    var n := LabelLen(name);
    if n == 0 {
      StartsEmpty(name);
    } else {
      if i: nat :| EmptyLabelAt(name, i) {
        EmptyAhead(name, n, i);
        Within(name, i);
      }
      if n < |name| {
        var rest := name[n + 1..];
        if i: nat :| EmptyLabelAt(rest, i) {
          EmptyBehind(name, n, i);
        }
      }
    }
  }

  lemma StartsEmpty(name: Text)
    requires name != [] && name[0] == DOT
    ensures EmptyLabelAt(name, 0)
  {
  }

  lemma Within(name: Text, i: nat)
    requires EmptyLabelAt(name, i)
    ensures i < |name|
  {
  }

  lemma {:induction false} TailRefused(name: Text, off: nat, table: seq<Entry>, comp: bool)
    ensures EncodeTail(name, off, table, comp).ok || EmptyLabel(name)
    ensures !comp && EncodeTail(name, off, table, comp).ok ==> !EmptyLabel(name)
    decreases |name|
  {
    hide Lookup, EncodeTail, EncodeLabel, LabelLen, Append, EmptyLabel;
    TailTurn(name, off, table, comp);
    var t := if Lookup(table, name).None? then Append(table, name, off) else table;
    LabelCases(name, off, t, comp);
    if name == [] {
      NoLabelEmpty();
    } else {
      EmptyLabelCons(name);
      var n := LabelLen(name);
      if 0 < n < |name| {
        TailRefused(name[n + 1..], off + 1 + n, t, comp);
      }
    }
  }

  lemma NoLabelEmpty()
    ensures !EmptyLabel([])
  {
  }

  /** EINVAL is for empty labels only; without compression, for every name with one but the root. */
  lemma RefusedIff(name: Text, off: nat, table: seq<Entry>, comp: bool)
    ensures !EncodeSpec(name, off, table, comp).ok ==> EmptyLabel(name) && name != [DOT]
    ensures EmptyLabel(name) && name != [DOT] && !comp ==> !EncodeSpec(name, off, table, comp).ok
  {
    hide EncodeTail, EncodeLabel, EmptyLabel, Lookup, Append;
    TailRefused(name, off, table, comp);
    TailTurn(name, off, table, comp);
  }
}
