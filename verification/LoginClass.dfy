/**
 * Login classes: a capability record is one string, a title and entries
 * between colons and tabs. Editing a class takes its record apart and prints
 * it anew.
 */
module LoginClass {
  import opened Bytes

  const TAB: byte := 9
  const COLON: byte := 58
  const EQUALS: byte := 61

  // ---------------------------------------------------------------------------
  // The text of a record
  // ---------------------------------------------------------------------------

  /** Where c first is in s; the length of s when it is not there. */
  function UpTo(s: seq<byte>, c: byte): (n: nat)
    ensures n <= |s| && c !in s[..n]
    ensures n < |s| ==> s[n] == c
  {
    if s == [] || s[0] == c then 0 else UpTo(s[1..], c) + 1
  }

  lemma {:induction false} UpToIs(s: seq<byte>, c: byte, rest: seq<byte>)
    requires c !in s && (rest == [] || rest[0] == c)
    ensures UpTo(s + rest, c) == |s|
  {
    if s != [] {
      assert (s + rest)[1..] == s[1..] + rest;
      UpToIs(s[1..], c, rest);
    } else {
      assert s + rest == rest;
    }
  }

  /** What follows a title: every entry behind a tab and a colon, and before a colon. */
  function Lines(entries: seq<CString>): seq<byte> {
    if entries == [] then [] else [TAB, COLON] + entries[0] + [COLON] + Lines(entries[1..])
  }

  lemma {:induction false} LinesAppend(entries: seq<CString>, e: CString)
    ensures Lines(entries + [e]) == Lines(entries) + [TAB, COLON] + e + [COLON]
  {
    if entries == [] {
      assert entries + [e] == [e];
      assert Lines([e]) == [TAB, COLON] + e + [COLON] + Lines([]);
    } else {
      assert (entries + [e])[1..] == entries[1..] + [e];
      LinesAppend(entries[1..], e);
    }
  }

  function Print(title: CString, entries: seq<CString>): seq<byte> {
    title + [COLON] + Lines(entries)
  }

  lemma {:induction false} NoNulInLines(entries: seq<CString>)
    ensures 0 !in Lines(entries)
  {
    if entries != [] {
      NoNulInLines(entries[1..]);
    }
  }

  /** A piece between tabs starts an entry when it begins with a colon and the piece before it ends with one. */
  predicate StartsEntry(before: seq<byte>, piece: seq<byte>) {
    piece != [] && piece[0] == COLON && before != [] && before[|before| - 1] == COLON
  }

  /** The entries in a text after the piece before, up to and including their last colons. */
  function Raw(before: seq<byte>, text: seq<byte>): seq<seq<byte>>
    decreases |text|
  {
    var n := UpTo(text, TAB);
    var piece := text[..n];
    if StartsEntry(before, piece) then
      [piece[1..]] + if n == |text| then [] else Raw([0] + piece[1..], text[n + 1..])
    else if n == |text| then []
    else Raw(piece, text[n + 1..])
  }

  /** A string without its last character. */
  function Cut(s: seq<byte>): seq<byte> {
    if s == [] then [] else s[..|s| - 1]
  }

  function CutAll(raw: seq<seq<byte>>): (r: seq<seq<byte>>)
    ensures |r| == |raw|
    ensures forall i {:trigger r[i]} | 0 <= i < |r| :: r[i] == Cut(raw[i])
  {
    if raw == [] then [] else [Cut(raw[0])] + CutAll(raw[1..])
  }

  /** The entries of a text. */
  function Parse(text: seq<byte>): seq<seq<byte>> {
    CutAll(Raw([], text))
  }

  ghost predicate TabFree(entries: seq<seq<byte>>) {
    forall i | 0 <= i < |entries| :: TAB !in entries[i]
  }

  lemma LinesStart(entries: seq<CString>)
    ensures Lines(entries) == [] <==> entries == []
    ensures entries != [] ==> Lines(entries)[0] == TAB
  {
  }

  /** The first piece of printed lines. */
  lemma FirstLine(entries: seq<CString>)
    requires entries != [] && TAB !in entries[0]
    ensures var text, piece := Lines(entries)[1..], [COLON] + entries[0] + [COLON];
            && UpTo(text, TAB) == |piece| <= |text| && text[..|piece|] == piece
            && (entries[1..] == [] ==> |text| == |piece|)
            && (entries[1..] != [] ==> |piece| < |text| && text[|piece| + 1..] == Lines(entries[1..])[1..])
  {
    var piece, rest := [COLON] + entries[0] + [COLON], Lines(entries[1..]);
    hide UpTo;
    assert Lines(entries) == [TAB] + (piece + rest);
    assert TAB !in piece;
    UpToIs(piece, TAB, rest);
    LinesStart(entries[1..]);
  }

  /** The entries of printed lines, behind a colon. */
  lemma {:induction false} RawOfLines(before: seq<byte>, entries: seq<CString>)
    requires before != [] && before[|before| - 1] == COLON
    requires entries != [] && TabFree(entries)
    ensures CutAll(Raw(before, Lines(entries)[1..])) == entries
    decreases |entries|
  {
    hide UpTo, Lines, Cut;
    FirstLine(entries);
    var piece := [COLON] + entries[0] + [COLON];
    CutLine(entries[0]);
    if entries[1..] != [] {
      RawOfLines([0] + piece[1..], entries[1..]);
    }
    assert entries == [entries[0]] + entries[1..];
  }

  lemma CutLine(e: CString)
    ensures Cut(([COLON] + e + [COLON])[1..]) == e
  {
  }

  predicate GoodTitle(title: CString) {
    title != [] && title[0] != COLON && TAB !in title
  }

  /** Parsing what was printed gives the entries back exactly when they are free of tabs. */
  lemma ParsePrint(title: CString, entries: seq<CString>)
    requires GoodTitle(title)
    ensures Parse(Print(title, entries)) == entries <==> TabFree(entries)
  {
    var text := Print(title, entries);
    if TabFree(entries) {
      var piece := title + [COLON];
      UpToIs(piece, TAB, Lines(entries));
      assert text[..|piece|] == piece;
      if entries != [] {
        assert text[|piece| + 1..] == Lines(entries)[1..];
        RawOfLines(piece, entries);
      }
    } else {
      RawIsTabFree([], text);
    }
  }

  /** No entry that is read holds a tab. */
  lemma {:induction false} RawIsTabFree(before: seq<byte>, text: seq<byte>)
    ensures TabFree(Raw(before, text))
    decreases |text|
  {
    var n := UpTo(text, TAB);
    var piece := text[..n];
    if n < |text| {
      RawIsTabFree(if StartsEntry(before, piece) then [0] + piece[1..] else piece, text[n + 1..]);
    }
  }

  // ---------------------------------------------------------------------------
  // Entries as a table
  // ---------------------------------------------------------------------------

  function KeyOf(entry: CString): CString {
    entry[..UpTo(entry, EQUALS)]
  }

  /** None for an entry without a value. */
  function ValueOf(entry: CString): Option<CString> {
    var n := UpTo(entry, EQUALS);
    if n == |entry| then None else Some(entry[n + 1..])
  }

  function Entry(key: CString, value: CString): CString {
    key + [EQUALS] + value
  }

  /** What the entries say, a later entry overriding an earlier one with its key. */
  function AsTable(entries: seq<CString>): map<CString, Option<CString>> {
    if entries == [] then map[]
    else
      var last := entries[|entries| - 1];
      AsTable(entries[..|entries| - 1])[KeyOf(last) := ValueOf(last)]
  }

  /** Every entry with the key gets the new value. */
  function Replaced(entries: seq<CString>, key: CString, value: CString): (r: seq<CString>)
    ensures |r| == |entries|
  {
    if entries == [] then []
    else
      var last := entries[|entries| - 1];
      Replaced(entries[..|entries| - 1], key, value) + [if KeyOf(last) == key then Entry(key, value) else last]
  }

  predicate HasKey(entries: seq<CString>, key: CString) {
    exists i :: 0 <= i < |entries| && KeyOf(entries[i]) == key
  }

  function SetIn(entries: seq<CString>, key: CString, value: CString): seq<CString> {
    Replaced(entries, key, value) + if HasKey(entries, key) then [] else [Entry(key, value)]
  }

  function DeletedFrom(entries: seq<CString>, key: CString): seq<CString> {
    if entries == [] then []
    else
      var last := entries[|entries| - 1];
      DeletedFrom(entries[..|entries| - 1], key) + if KeyOf(last) == key then [] else [last]
  }

  lemma EntryKey(key: CString, value: CString)
    requires EQUALS !in key
    ensures KeyOf(Entry(key, value)) == key && ValueOf(Entry(key, value)) == Some(value)
  {
    assert Entry(key, value) == key + ([EQUALS] + value);
    UpToIs(key, EQUALS, [EQUALS] + value);
  }

  /** A key is in the table exactly when an entry has it. */
  lemma {:induction false} InTable(entries: seq<CString>, key: CString)
    ensures key in AsTable(entries) <==> HasKey(entries, key)
  {
    if entries != [] {
      var n := |entries| - 1;
      InTable(entries[..n], key);
      if i :| 0 <= i < |entries| && KeyOf(entries[i]) == key {
        assert i < n ==> entries[..n][i] == entries[i];
      }
    }
  }

  lemma {:induction false} ReplacedTable(entries: seq<CString>, key: CString, value: CString)
    requires EQUALS !in key
    ensures AsTable(Replaced(entries, key, value)) ==
            if HasKey(entries, key) then AsTable(entries)[key := Some(value)] else AsTable(entries)
  {
    hide KeyOf, ValueOf, Entry;
    if entries != [] {
      var n := |entries| - 1;
      var front := entries[..n];
      ReplacedTable(front, key, value);
      EntryKey(key, value);
      assert Replaced(entries, key, value)[..n] == Replaced(front, key, value);
      HasKeySplit(entries, key);
      hide HasKey;
    }
  }

  lemma HasKeySplit(entries: seq<CString>, key: CString)
    requires entries != []
    ensures HasKey(entries, key) <==> HasKey(entries[..|entries| - 1], key) || KeyOf(entries[|entries| - 1]) == key
  {
    var n := |entries| - 1;
    if i :| 0 <= i < |entries| && KeyOf(entries[i]) == key {
      assert i < n ==> entries[..n][i] == entries[i];
    }
    if i :| 0 <= i < n && KeyOf(entries[..n][i]) == key {
      assert entries[i] == entries[..n][i];
    }
  }

  /** Setting an entry updates the table, and no more, exactly when the key holds no equals sign. */
  lemma SetIsUpdate(entries: seq<CString>, key: CString, value: CString)
    ensures AsTable(SetIn(entries, key, value)) == AsTable(entries)[key := Some(value)] <==> EQUALS !in key
  {
    hide ValueOf;
    var after := SetIn(entries, key, value);
    if EQUALS !in key {
      ReplacedTable(entries, key, value);
      EntryKey(key, value);
      if !HasKey(entries, key) {
        assert after[..|after| - 1] == Replaced(entries, key, value);
      } else {
        assert after == Replaced(entries, key, value);
      }
    } else {
      InTable(after, key);
    }
  }

  /** Deleting an entry removes its key from the table, and no more. */
  lemma {:induction false} DeleteIsRemoval(entries: seq<CString>, key: CString)
    ensures AsTable(DeletedFrom(entries, key)) == AsTable(entries) - {key}
  {
    hide KeyOf, ValueOf;
    if entries != [] {
      var n := |entries| - 1;
      var front, left := DeletedFrom(entries[..n], key), DeletedFrom(entries, key);
      DeleteIsRemoval(entries[..n], key);
      if KeyOf(entries[n]) == key {
        assert left == front;
      } else {
        assert left[..|left| - 1] == front;
      }
    }
  }

  lemma DeletedAppend(entries: seq<CString>, e: CString, key: CString)
    ensures DeletedFrom(entries + [e], key) == DeletedFrom(entries, key) + if KeyOf(e) == key then [] else [e]
  {
    hide KeyOf;
    assert (entries + [e])[..|entries|] == entries;
  }

  lemma {:induction false} OthersStayReplaced(entries: seq<CString>, key: CString, value: CString)
    requires EQUALS !in key
    ensures DeletedFrom(Replaced(entries, key, value), key) == DeletedFrom(entries, key)
  {
    hide KeyOf, Entry;
    EntryKey(key, value);
    if entries != [] {
      var n := |entries| - 1;
      OthersStayReplaced(entries[..n], key, value);
      var e := if KeyOf(entries[n]) == key then Entry(key, value) else entries[n];
      DeletedAppend(Replaced(entries[..n], key, value), e, key);
    }
  }

  /** Setting an entry leaves all entries with other keys as they are, in their order. */
  lemma OthersStay(entries: seq<CString>, key: CString, value: CString)
    requires EQUALS !in key
    ensures DeletedFrom(SetIn(entries, key, value), key) == DeletedFrom(entries, key)
  {
    hide KeyOf, Entry, Replaced, DeletedFrom, HasKey;
    EntryKey(key, value);
    OthersStayReplaced(entries, key, value);
    DeletedAppend(Replaced(entries, key, value), Entry(key, value), key);
    assert Replaced(entries, key, value) + [] == Replaced(entries, key, value);
  }
}
