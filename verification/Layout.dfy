/** The layout of what the writer writes: compact text holds no whitespace and is the shortest there is, indented text has
    every entry on its own line. */
module Layout {
  import opened Bytes
  import opened Utf8Coding
  import opened StringGrammar
  import opened Grammar
  import opened Escaping
  import opened Writing
  import opened Formatting

  // ---------- compact ----------

  /** No whitespace anywhere, outside strings. */
  predicate Compact(c: Syn)
    decreases c
  {
    c.SContainer? ==>
      c.inner == [] &&
      forall k :: 0 <= k < |c.entries| ==>
        var e := c.entries[k];
        e.pre == [] && e.post == [] && (e.name.Some? ==> e.name.value.gap == [] && e.name.value.after == []) && Compact(e.value)
  }

  lemma {:induction false} CompactAll(c: Syn, depth: nat)
    ensures Compact(Formatted(c, 0, depth))
    decreases c
  {
    hide CleanChars, FormattedEntries;
    if c.SContainer? {
      var fs := FormattedEntries(c.entries, 0, depth + 1);
      forall k | 0 <= k < |c.entries|
        ensures Compact(Formatted(c.entries[k].value, 0, depth + 1))
      {
        CompactAll(c.entries[k].value, depth + 1);
      }
      forall k | 0 <= k < |c.entries|
        ensures fs[k] == Entry([], FormattedName(c.entries[k].name, 0), Formatted(c.entries[k].value, 0, depth + 1), [])
      {
        EntryAt(c.entries, 0, depth + 1, k);
      }
    }
  }

  lemma {:induction false} EntryAt(es: seq<Entry>, indent: nat, depth: nat, k: nat)
    requires depth > 0 && k < |es|
    ensures FormattedEntries(es, indent, depth)[k]
         == Entry(Newline(indent, depth), FormattedName(es[k].name, indent), Formatted(es[k].value, indent, depth),
                  if k == |es| - 1 then Newline(indent, depth - 1) else [])
    decreases k
  {
    hide Newline, FormattedName, Formatted, FormattedEntries;
    FormattedFirst(es, indent, depth);
    if k > 0 {
      EntryAt(es[1..], indent, depth, k - 1);
      assert FormattedEntries(es, indent, depth)[k] == FormattedEntries(es, indent, depth)[1..][k - 1];
    }
  }

  // ---------- indented ----------

  /** A line break and `n` spaces. */
  predicate IsLineBreak(s: bytes, n: nat) {
    |s| == 1 + n && s[0] == '\n' as int && forall j :: 1 <= j <= n ==> s[j] == ' ' as int
  }

  /** Every entry on a line of its own, `indent` spaces further than the container, whose closing bracket is on a line of its
      own too; a space after every colon, and no other whitespace. The value is `depth` levels deep. */
  predicate Indented(c: Syn, indent: nat, depth: nat)
    decreases c
  {
    c.SContainer? ==>
      c.inner == [] &&
      forall k :: 0 <= k < |c.entries| ==>
        var e := c.entries[k];
        IsLineBreak(e.pre, (depth + 1) * indent) &&
        (if k == |c.entries| - 1 then IsLineBreak(e.post, depth * indent) else e.post == []) &&
        (e.name.Some? ==> e.name.value.gap == [] && e.name.value.after == [' ' as int]) &&
        Indented(e.value, indent, depth + 1)
  }

  lemma BreakAt(indent: nat, depth: nat)
    requires indent > 0
    ensures IsLineBreak(Newline(indent, depth), depth * indent)
  {
  }

  lemma {:induction false} IndentedAll(c: Syn, indent: nat, depth: nat)
    requires indent > 0
    ensures Indented(Formatted(c, indent, depth), indent, depth)
    decreases c
  {
    hide CleanChars, IsLineBreak, Newline;
    if c.SContainer? {
      var fs := FormattedEntries(c.entries, indent, depth + 1);
      BreakAt(indent, depth);
      BreakAt(indent, depth + 1);
      forall k | 0 <= k < |c.entries|
        ensures Indented(Formatted(c.entries[k].value, indent, depth + 1), indent, depth + 1)
      {
        IndentedAll(c.entries[k].value, indent, depth + 1);
      }
      forall k | 0 <= k < |c.entries|
        ensures fs[k] == Entry(Newline(indent, depth + 1), FormattedName(c.entries[k].name, indent),
                               Formatted(c.entries[k].value, indent, depth + 1),
                               if k == |c.entries| - 1 then Newline(indent, depth) else [])
      {
        EntryAt(c.entries, indent, depth + 1, k);
      }
    }
  }

  /** What precedes a value or a name: nothing at the start or after a colon; a line break between top-level values; inside a
      container, a comma between entries, and a new line for each of them, when indenting. */
  lemma SeparatorExact(pos: Pos, indent: nat, depth: nat)
    ensures var s := Separator(pos, indent, depth);
            match pos
            case AfterKey => s == []
            case Start => if depth == 0 || indent == 0 then s == [] else IsLineBreak(s, depth * indent)
            case AfterValue =>
              if depth == 0 then s == ['\n' as int]
              else if indent == 0 then s == [',' as int]
              else s != [] && s[0] == ',' as int && IsLineBreak(s[1..], depth * indent)
  {
    hide IsLineBreak, Newline;
    if indent > 0 {
      BreakAt(indent, depth);
    } else {
      NoBreak(depth);
    }
    assert AfterComma(Newline(indent, depth));
  }

  predicate AfterComma(s: bytes) {
    ([COMMA] + s)[1..] == s
  }

  lemma NoBreak(depth: nat)
    ensures Newline(0, depth) == []
  {
  }

  // ---------- one text for each tree ----------

  /** What is written depends on the tree only. */
  lemma {:induction false} SameTreeSameText(a: Syn, b: Syn, indent: nat, depth: nat)
    requires Wf(a) && Wf(b) && ToTree(a) == ToTree(b)
    ensures SynBytes(Formatted(a, indent, depth)) == SynBytes(Formatted(b, indent, depth))
    decreases a, 1
  {
    hide CleanChars, CharsText, CharsBytes, Escape, ToMembers, ToElems, FormattedEntries;
    if a.SString? {
      CleanExact(a.chars);
      CleanExact(b.chars);
    } else if a.SContainer? {
      SameTrees(a, b);
      if a.entries != [] {
        SameEntriesSameText(a.obj, a.entries, b.entries, indent, depth + 1);
      }
      NoEntries(indent, depth + 1);
    }
  }

  lemma NoEntries(indent: nat, depth: nat)
    requires depth > 0
    ensures FormattedEntries([], indent, depth) == []
  {
  }

  /** The same trees, entry by entry. */
  predicate Alike(obj: bool, es: seq<Entry>, fs: seq<Entry>) {
    |es| == |fs| && forall k :: 0 <= k < |es| ==>
      (obj ==> Grammar.NameText(es[k]) == Grammar.NameText(fs[k])) && ToTree(es[k].value) == ToTree(fs[k].value)
  }

  lemma {:induction false} SameTrees(a: Syn, b: Syn)
    requires a.SContainer? && b.SContainer? && ToTree(a) == ToTree(b)
    ensures a.obj == b.obj && Alike(a.obj, a.entries, b.entries)
  {
    hide Grammar.NameText;
    assert |a.entries| == |b.entries|;
    forall k | 0 <= k < |a.entries|
      ensures (a.obj ==> Grammar.NameText(a.entries[k]) == Grammar.NameText(b.entries[k])) &&
              ToTree(a.entries[k].value) == ToTree(b.entries[k].value)
    {
      if a.obj {
        assert ToMembers(a.entries)[k] == ToMembers(b.entries)[k];
      } else {
        assert ToElems(a.entries)[k] == ToElems(b.entries)[k];
      }
    }
  }

  lemma SameNameSameText(obj: bool, e: Entry, f: Entry, indent: nat)
    requires WfName(obj, e.name) && WfName(obj, f.name) && (obj ==> Grammar.NameText(e) == Grammar.NameText(f))
    ensures NameBytes(FormattedName(e.name, indent)) == NameBytes(FormattedName(f.name, indent))
  {
    hide CleanChars, CharsText, CharsBytes, Escape;
    if obj {
      Formatting.NameText(e.name.value, indent);
      Formatting.NameText(f.name.value, indent);
    }
  }

  lemma {:induction false} SameEntriesSameText(obj: bool, es: seq<Entry>, fs: seq<Entry>, indent: nat, depth: nat)
    requires es != [] && depth > 0 && WfEntries(obj, es) && WfEntries(obj, fs) && Alike(obj, es, fs)
    ensures ListBytes(obj, FormattedEntries(es, indent, depth)) == ListBytes(obj, FormattedEntries(fs, indent, depth))
    decreases es, 0
  {
    hide Newline, FormattedName, Formatted, FormattedEntries, SynBytes, NameBytes, ToTree, Wf, WfName, Grammar.NameText;
    FormattedFirst(es, indent, depth);
    FormattedFirst(fs, indent, depth);
    SameNameSameText(obj, es[0], fs[0], indent);
    SameTreeSameText(es[0].value, fs[0].value, indent, depth);
    if |es| > 1 {
      assert Alike(obj, es[1..], fs[1..]);
      SameEntriesSameText(obj, es[1..], fs[1..], indent, depth);
    }
  }

  // ---------- nothing is shorter ----------

  /** No other spelling of a character is shorter than the one that the writer chooses. */
  lemma CharIsShortest(c: StrChar)
    requires WfChar(c)
    ensures |CharBytes(CharOf(CharCp(c)))| <= |CharBytes(c)|
  {
  }

  lemma {:induction false} CharsAreShortest(cs: seq<StrChar>)
    requires WfChars(cs)
    ensures |CharsBytes(CleanChars(cs))| <= |CharsBytes(cs)|
  {
    hide CharBytes, CharOf, CharCp, WfChar;
    if cs != [] {
      CharIsShortest(cs[0]);
      CharsAreShortest(cs[1..]);
      assert CharsCps(cs)[1..] == CharsCps(cs[1..]);
      assert CleanChars(cs) == [CharOf(CharCp(cs[0]))] + CleanChars(cs[1..]);
    }
  }

  lemma {:induction false} FormattedIsShorter(c: Syn, depth: nat)
    requires Wf(c)
    ensures |SynBytes(Formatted(c, 0, depth))| <= |SynBytes(c)|
    decreases c, 1
  {
    hide CleanChars, CharsBytes, FormattedEntries;
    if c.SString? {
      CharsAreShortest(c.chars);
    } else if c.SContainer? {
      NoEntries(0, depth + 1);
      if c.entries != [] {
        EntriesAreShorter(c.obj, c.entries, depth + 1);
      }
    }
  }

  lemma {:induction false} EntriesAreShorter(obj: bool, es: seq<Entry>, depth: nat)
    requires es != [] && depth > 0 && WfEntries(obj, es)
    ensures |ListBytes(obj, FormattedEntries(es, 0, depth))| <= |ListBytes(obj, es)|
    decreases es, 0
  {
    hide FormattedName, Formatted, FormattedEntries, SynBytes, NameBytes, Wf;
    FormattedFirst(es, 0, depth);
    NoBreak(depth);
    NoBreak(depth - 1);
    NameIsShorter(es[0].name, obj);
    FormattedIsShorter(es[0].value, depth);
    if |es| > 1 {
      EntriesAreShorter(obj, es[1..], depth);
    }
  }

  lemma NameIsShorter(name: Option<Name>, obj: bool)
    requires WfName(obj, name)
    ensures |NameBytes(FormattedName(name, 0))| <= |NameBytes(name)|
  {
    hide CleanChars, CharsBytes;
    if obj {
      CharsAreShortest(name.value.chars);
    }
  }

  /** Compact text is the shortest of all texts that spell the tree. */
  lemma CompactIsShortest(a: Syn, b: Syn, depth: nat)
    requires Wf(a) && Wf(b) && ToTree(a) == ToTree(b)
    ensures |SynBytes(Formatted(a, 0, depth))| <= |SynBytes(b)|
  {
    hide Formatted, SynBytes, ToTree;
    SameTreeSameText(a, b, 0, depth);
    FormattedIsShorter(b, depth);
  }
}
