/** Editing login classes in their database: parsing a record in place, and printing it anew. */
module ClassStore {
  import opened Bytes
  import opened LoginClass

  /** The room for a record that is being put together. */
  const BUFFER: nat := 8096

  // ---------------------------------------------------------------------------
  // Strings inside a buffer
  // ---------------------------------------------------------------------------

  /** The C string at pos in b is s. */
  ghost predicate StringAt(b: seq<byte>, pos: nat, s: seq<byte>) {
    pos + |s| < |b| && b[pos..pos + |s|] == s && b[pos + |s|] == 0 && 0 !in s
  }

  /** The strings at the given places, in order and at least one byte apart, all below limit. */
  ghost predicate StringsAt(b: seq<byte>, places: seq<nat>, strings: seq<seq<byte>>, limit: nat) {
    && |places| == |strings| && limit <= |b|
    && (forall i {:trigger places[i]} | 0 <= i < |places| ::
          && 0 < places[i] && StringAt(b, places[i], strings[i])
          && places[i] + |strings[i]| < limit && b[places[i] - 1] == 0)
    && (forall i, j | 0 <= i < j < |places| :: places[i] + |strings[i]| < places[j] - 1)
  }

  /** Nothing below the limit changes: the strings stay. */
  lemma StringsStay(b: seq<byte>, b': seq<byte>, places: seq<nat>, strings: seq<seq<byte>>, limit: nat, limit': nat)
    requires StringsAt(b, places, strings, limit)
    requires |b'| == |b| && limit <= limit' <= |b| && b'[..limit] == b[..limit]
    ensures StringsAt(b', places, strings, limit')
  {
    forall i | 0 <= i < |places|
      ensures StringAt(b', places[i], strings[i]) && b'[places[i] - 1] == 0
    {
      var p, n := places[i], |strings[i]|;
      assert b'[..limit][p..p + n] == b[..limit][p..p + n];
      assert b'[..limit][p - 1] == b[..limit][p - 1] && b'[..limit][p + n] == b[..limit][p + n];
    }
  }

  lemma OneMoreString(b: seq<byte>, places: seq<nat>, strings: seq<seq<byte>>, limit: nat, place: nat, s: seq<byte>,
                      limit': nat)
    requires StringsAt(b, places, strings, limit)
    requires limit < place && StringAt(b, place, s) && place + |s| < limit' <= |b| && b[place - 1] == 0
    ensures StringsAt(b, places + [place], strings + [s], limit')
  {
  }

  /** Taking the last character off string i touches no other string. */
  lemma CutOne(b: seq<byte>, places: seq<nat>, strings: seq<seq<byte>>, limit: nat, i: nat)
    requires StringsAt(b, places, strings, limit) && i < |places|
    ensures var at := places[i] + |strings[i]| - 1;
            0 <= at < |b| && StringsAt(b[at := 0], places, strings[i := Cut(strings[i])], limit)
  {
    var at := places[i] + |strings[i]| - 1;
    var b', strings' := b[at := 0], strings[i := Cut(strings[i])];
    forall j | 0 <= j < |places|
      ensures StringAt(b', places[j], strings'[j]) && b'[places[j] - 1] == 0
    {
      var p := places[j];
      assert b[p..p + |strings[j]|] == strings[j];
      if j == i {
        assert b'[p..p + |strings'[i]|] == strings[i][..|strings'[i]|];
      } else {
        assert j < i || i < j;
        assert b'[p..p + |strings[j]|] == b[p..p + |strings[j]|];
      }
    }
  }

  // ---------------------------------------------------------------------------
  // Parsing in place
  // ---------------------------------------------------------------------------

  lemma Within(b: seq<byte>, pos: nat, s: seq<byte>)
    requires StringAt(b, pos, s)
    ensures pos + |s| < |b|
  {
  }

  /** Reading along a string. */
  lemma CharAt(b: seq<byte>, pos: nat, s: seq<byte>, n: nat)
    requires StringAt(b, pos, s) && n <= |s|
    ensures b[pos + n] == if n < |s| then s[n] else 0
    ensures b[pos + n] == 0 <==> n == |s|
  {
    if n < |s| {
      assert b[pos..pos + |s|][n] == b[pos + n];
    }
  }

  /** The length of the string at pos. */
  method Strlen(data: array<byte>, pos: nat, ghost s: seq<byte>) returns (n: nat)
    requires StringAt(data[..], pos, s)
    ensures n == |s|
  {
    n := 0;
    CharAt(data[..], pos, s, 0);
    while data[pos + n] != 0
      invariant n <= |s| && (data[pos + n] == 0 <==> n == |s|)
      decreases |s| - n
    {
      n := n + 1;
      CharAt(data[..], pos, s, n);
    }
  }

  /** The end of the piece at pos: the next tab, or the NUL behind the text. */
  method PieceEnd(data: array<byte>, pos: nat, ghost text: seq<byte>) returns (end: nat)
    requires StringAt(data[..], pos, text)
    ensures end == pos + UpTo(text, TAB)
  {
    end := pos;
    CharAt(data[..], pos, text, 0);
    while data[end] != TAB && data[end] != 0
      invariant pos <= end <= pos + |text|
      invariant TAB !in text[..end - pos]
      invariant data[end] == if end - pos < |text| then text[end - pos] else 0
      decreases pos + |text| - end
    {
      end := end + 1;
      CharAt(data[..], pos, text, end - pos);
    }
    ghost var n := end - pos;
    assert text == text[..n] + text[n..];
    UpToIs(text[..n], TAB, text[n..]);
  }

  /** The piece before is still in the buffer, as far as its last character goes. */
  ghost predicate Behind(b: seq<byte>, at: nat, before: seq<byte>) {
    && 0 < at <= |b| && b[at - 1] != COLON
    && (before == [] ==> at == 1 || b[at - 2] != COLON)
    && (before != [] ==> at >= 2 && b[at - 2] == before[|before| - 1])
  }

  /** The text behind a piece is where it was. */
  lemma RestStays(b: seq<byte>, b': seq<byte>, at: nat, text: seq<byte>, n: nat)
    requires StringAt(b, at, text) && n < |text|
    requires |b'| == |b| && b'[at + n + 1..] == b[at + n + 1..]
    ensures StringAt(b', at + n + 1, text[n + 1..])
  {
    var from, m := at + n + 1, |text| - n - 1;
    assert b'[from..][..m] == b[from..][..m] == text[n + 1..];
    assert b'[from..][m] == b[from..][m] == b[at + |text|];
  }

  /** A piece that is cut off at both ends is an entry. */
  lemma EntryStands(b: seq<byte>, b': seq<byte>, at: nat, text: seq<byte>, n: nat)
    requires StringAt(b, at, text) && 0 < n <= |text|
    requires |b'| == |b| && b'[at + 1..at + n] == b[at + 1..at + n] && b'[at + n] == 0
    ensures StringAt(b', at + 1, text[1..n])
  {
    forall k | 0 <= k < n - 1
      ensures b[at + 1..at + n][k] == text[1..n][k]
    {
      CharAt(b, at, text, k + 1);
    }
    assert b[at + 1..at + n] == text[1..n];
  }

  /** The buffer after a token is cut off at its end and at its colon. */
  function Marked(b: seq<byte>, at: nat, end: nat, cut: bool, entry: bool): (r: seq<byte>)
    requires at <= end < |b|
    ensures |r| == |b|
  {
    var c := if cut then b[end := 0] else b;
    if entry then c[at := 0] else c
  }

  /** Looking two bytes back tells whether a token starts an entry. */
  lemma EntryTest(b: seq<byte>, at: nat, before: seq<byte>, text: seq<byte>, n: nat)
    requires StringAt(b, at, text) && Behind(b, at, before) && n <= |text|
    requires at == 1 ==> text == [] || text[0] != COLON
    ensures StartsEntry(before, text[..n]) <==> n > 0 && at >= 2 && b[at] == COLON && b[at - 2] == COLON
    ensures n > 0 && b[at] == COLON ==> at >= 2
  {
    CharAt(b, at, text, 0);
  }

  /** What a marked buffer keeps. */
  lemma MarkedKeeps(b: seq<byte>, at: nat, end: nat, cut: bool, entry: bool)
    requires at <= end < |b| && (entry ==> at < end)
    ensures var now := Marked(b, at, end, cut, entry);
            && now[..at] == b[..at] && now[end + 1..] == b[end + 1..]
            && now[end] == (if cut then 0 else b[end])
            && (entry ==> now[at] == 0 && now[at + 1..end] == b[at + 1..end])
            && (forall i | at < i < end :: now[i] == b[i])
  {
  }

  /** Where the rest and the entry are once a token is marked. */
  lemma MarkedPiece(b: seq<byte>, at: nat, before: seq<byte>, text: seq<byte>, n: nat, entry: bool)
    requires StringAt(b, at, text) && Behind(b, at, before) && n == UpTo(text, TAB) && (entry ==> n > 0)
    requires at + n < |b|
    ensures var now := Marked(b, at, at + n, 0 < n < |text|, entry);
            && now[..at] == b[..at]
            && (entry ==> StringAt(now, at + 1, text[1..n]) && now[at] == 0)
            && (n < |text| ==> StringAt(now, at + n + 1, text[n + 1..]))
            && (n < |text| ==> Behind(now, at + n + 1, if entry then [0] + text[1..n] else text[..n]))
  {
    hide UpTo, StringAt, Marked, Behind;
    var cut := 0 < n < |text|;
    var now := Marked(b, at, at + n, cut, entry);
    MarkedKeeps(b, at, at + n, cut, entry);
    CharAt(b, at, text, n);
    if entry {
      EntryStands(b, now, at, text, n);
    }
    if n < |text| {
      RestStays(b, now, at, text, n);
      MarkedBehind(b, now, at, before, text, n, entry);
    }
  }

  /** The piece that was marked is now the one behind. */
  lemma MarkedBehind(b: seq<byte>, now: seq<byte>, at: nat, before: seq<byte>, text: seq<byte>, n: nat, entry: bool)
    requires StringAt(b, at, text) && Behind(b, at, before) && n < |text| && text[n] == TAB
    requires |now| == |b| && at + n < |b| && (entry ==> n > 0)
    requires now == Marked(b, at, at + n, n > 0, entry)
    ensures Behind(now, at + n + 1, if entry then [0] + text[1..n] else text[..n])
  {
    hide StringAt;
    CharAt(b, at, text, n);
    if n > 0 {
      CharAt(b, at, text, n - 1);
    }
  }

  /** One token: it is cut off at its end and, when it starts an entry, at its colon. */
  method TakePiece(data: array<byte>, at: nat, ghost before: seq<byte>, ghost text: seq<byte>)
    returns (entry: bool, end: nat, more: bool)
    requires StringAt(data[..], at, text) && Behind(data[..], at, before)
    requires at == 1 ==> text == [] || text[0] != COLON
    modifies data
    ensures var n := UpTo(text, TAB);
            && end == at + n && more == (n < |text|)
            && entry == StartsEntry(before, text[..n]) && (entry ==> n > 0)
            && data[..at] == old(data[..at])
            && (entry ==> StringAt(data[..], at + 1, text[1..n]) && data[..][at] == 0)
            && (more ==> StringAt(data[..], end + 1, text[n + 1..]))
            && (more ==> Behind(data[..], end + 1, if entry then [0] + text[1..n] else text[..n]))
  {
    hide UpTo, StringAt, StartsEntry, Behind;
    ghost var was, n := data[..], UpTo(text, TAB);
    end := PieceEnd(data, at, text);
    Within(was, at, text);
    CharAt(was, at, text, n);
    EntryTest(was, at, before, text, n);
    more := data[end] != 0;
    if more && end > at {
      data[end] := 0;
    }
    entry := data[at] == COLON && data[at - 2] == COLON;
    if entry {
      data[at] := 0;
    }
    MarkedPiece(was, at, before, text, n, entry);
    assert data[..] == Marked(was, at, end, more && end > at, entry);
    assert data[..at] == data[..][..at];
  }

  /** All tokens: the list points behind the colon of every entry. */
  method SplitInPlace(data: array<byte>, ghost text: seq<byte>) returns (list: seq<nat>)
    requires data[..] == [0] + text + [0] && 0 !in text && (text != [] ==> text[0] != COLON)
    modifies data
    ensures StringsAt(data[..], list, Raw([], text), data.Length)
  {
    hide Raw, StringAt, StringsAt, StartsEntry, Behind, UpTo;
    FirstPiece(data[..], text);
    var at: nat, more := 1, true;
    ghost var before, rest, done := [], text, [];
    list := [];
    while more
      invariant Raw([], text) == done + if more then Raw(before, rest) else []
      invariant more ==> 0 < at && StringAt(data[..], at, rest) && Behind(data[..], at, before)
      invariant more && at == 1 ==> rest == [] || rest[0] != COLON
      invariant at <= data.Length && StringsAt(data[..], list, done, at)
      decreases more, |rest|
    {
      ghost var was, n, start := data[..], UpTo(rest, TAB), at;
      RawStep(text, done, before, rest);
      var entry, end;
      entry, end, more := TakePiece(data, at, before, rest);
      Collect(was, data[..], list, done, start, rest, n, entry);
      list := if entry then list + [at + 1] else list;
      at := end + 1;
      done := if entry then done + [rest[1..n]] else done;
      before := if entry then [0] + rest[1..n] else rest[..n];
      rest := if more then rest[n + 1..] else [];
    }
    StringsStay(data[..], data[..], list, done, at, data.Length);
    assert done + [] == done;
  }

  /** What one piece adds to the entries. */
  lemma RawStep(all: seq<byte>, done: seq<seq<byte>>, before: seq<byte>, text: seq<byte>)
    requires Raw([], all) == done + Raw(before, text)
    ensures var n := UpTo(text, TAB);
            var entry := StartsEntry(before, text[..n]);
            Raw([], all) == (if entry then done + [text[1..n]] else done)
            + if n < |text| then Raw(if entry then [0] + text[1..n] else text[..n], text[n + 1..]) else []
  {
    hide UpTo;
    var n := UpTo(text, TAB);
    var entry := StartsEntry(before, text[..n]);
    assert entry ==> n > 0;
    hide StartsEntry;
    if entry {
      assert text[..n][1..] == text[1..n];
      var rest := if n < |text| then Raw([0] + text[1..n], text[n + 1..]) else [];
      assert done + ([text[1..n]] + rest) == done + [text[1..n]] + rest;
    }
  }

  /** What one piece adds to the list. */
  lemma Collect(was: seq<byte>, b: seq<byte>, list: seq<nat>, done: seq<seq<byte>>, at: nat, text: seq<byte>, n: nat,
                entry: bool)
    requires StringsAt(was, list, done, at) && StringAt(was, at, text) && n <= |text|
    requires |b| == |was| && b[..at] == was[..at]
    requires entry ==> 0 < n && StringAt(b, at + 1, text[1..n]) && b[at] == 0
    ensures at + n + 1 <= |b|
    ensures entry ==> StringsAt(b, list + [at + 1], done + [text[1..n]], at + n + 1)
    ensures !entry ==> StringsAt(b, list, done, at + n + 1)
  {
    Within(was, at, text);
    hide StringAt, StringsAt;
    StringsStay(was, b, list, done, at, at);
    if entry {
      OneMoreString(b, list, done, at, at + 1, text[1..n], at + n + 1);
    } else {
      StringsStay(b, b, list, done, at, at + n + 1);
    }
  }

  lemma FirstPiece(b: seq<byte>, text: seq<byte>)
    requires b == [0] + text + [0] && 0 !in text
    ensures StringAt(b, 1, text) && Behind(b, 1, []) && StringsAt(b, [], [], 1)
  {
  }

  lemma SameCount(b: seq<byte>, places: seq<nat>, strings: seq<seq<byte>>, limit: nat)
    requires StringsAt(b, places, strings, limit)
    ensures |places| == |strings|
  {
  }

  lemma OneOf(b: seq<byte>, places: seq<nat>, strings: seq<seq<byte>>, limit: nat, i: nat)
    requires StringsAt(b, places, strings, limit) && i < |places|
    ensures |places| == |strings| && StringAt(b, places[i], strings[i])
  {
  }

  /** Taking the last character off a string. */
  method CutLast(data: array<byte>, list: seq<nat>, ghost strings: seq<seq<byte>>, i: nat)
    requires StringsAt(data[..], list, strings, data.Length) && i < |list| == |strings|
    modifies data
    ensures StringsAt(data[..], list, strings[i := Cut(strings[i])], data.Length)
  {
    ghost var was := data[..];
    OneOf(was, list, strings, data.Length, i);
    hide StringAt, StringsAt, Cut;
    var n := Strlen(data, list[i], strings[i]);
    CutOne(was, list, strings, data.Length, i);
    data[list[i] + n - 1] := 0;
    assert data[..] == was[list[i] + n - 1 := 0];
  }

  /** Parsing a record: strings that are the entries, in place. */
  method ParseInPlace(data: array<byte>, ghost text: seq<byte>) returns (list: seq<nat>)
    requires data[..] == [0] + text + [0] && 0 !in text && (text != [] ==> text[0] != COLON)
    modifies data
    ensures StringsAt(data[..], list, Parse(text), data.Length)
  {
    list := SplitInPlace(data, text);
    hide StringAt, StringsAt, Cut, CutAll;
    ghost var raw := Raw([], text);
    SameCount(data[..], list, raw, data.Length);
    ghost var strings := raw;
    CutNone(raw);
    var i := 0;
    while i < |list|
      invariant 0 <= i <= |list| == |raw| == |strings|
      invariant StringsAt(data[..], list, strings, data.Length)
      invariant strings == CutAll(raw[..i]) + raw[i..]
    {
      CutNext(raw, i);
      CutLast(data, list, strings, i);
      strings := strings[i := Cut(strings[i])];
      i := i + 1;
    }
    assert raw[..i] == raw && raw[i..] == [];
    assert strings == CutAll(raw);
  }

  lemma CutNone(raw: seq<seq<byte>>)
    ensures raw == CutAll(raw[..0]) + raw[0..]
  {
  }

  /** One more string is cut. */
  lemma CutNext(raw: seq<seq<byte>>, i: nat)
    requires i < |raw|
    ensures var strings := CutAll(raw[..i]) + raw[i..];
            && |strings| == |raw| && strings[i] == raw[i]
            && strings[i := Cut(raw[i])] == CutAll(raw[..i + 1]) + raw[i + 1..]
  {
    hide Cut, CutAll;
    assert forall j | 0 <= j < i :: CutAll(raw[..i])[j] == CutAll(raw[..i + 1])[j];
  }

  // ---------------------------------------------------------------------------
  // The database of classes
  // ---------------------------------------------------------------------------

  datatype Class = Class(title: CString, entries: seq<CString>)

  /** A class as its record: the text between two NULs. */
  function Record(c: Class): seq<byte> {
    [0] + Print(c.title, c.entries) + [0]
  }

  ghost predicate Good(c: Class) {
    GoodTitle(c.title) && TabFree(c.entries)
  }

  ghost predicate Holds(db: map<CString, seq<byte>>, classes: map<CString, Class>) {
    db.Keys == classes.Keys && forall c | c in classes :: Good(classes[c]) && db[c] == Record(classes[c])
  }

  /** The class after an entry is set. A new class, or one whose record is printed anew, has its name for a title. */
  function AfterSet(classes: map<CString, Class>, name: CString, key: CString, value: CString): Class {
    if name !in classes then Class(name, [Entry(key, value)])
    else
      var c := classes[name];
      Class(if c.entries == [] then c.title else name, SetIn(c.entries, key, value))
  }

  /** The class after an entry is deleted; one without entries stays as it is. */
  function AfterDelete(classes: map<CString, Class>, name: CString, key: CString): Class
    requires name in classes
  {
    var c := classes[name];
    if c.entries == [] then c else Class(name, DeletedFrom(c.entries, key))
  }

  /** A good name and text without tabs keep a class good. */
  lemma SetIsGood(classes: map<CString, Class>, name: CString, key: CString, value: CString)
    requires name in classes ==> Good(classes[name])
    requires GoodTitle(name) && TAB !in key && TAB !in value
    ensures Good(AfterSet(classes, name, key, value))
  {
    if name in classes {
      ReplacedTabFree(classes[name].entries, key, value);
    }
  }

  lemma {:induction false} ReplacedTabFree(entries: seq<CString>, key: CString, value: CString)
    requires TabFree(entries) && TAB !in key && TAB !in value
    ensures TabFree(Replaced(entries, key, value))
  {
    if entries != [] {
      ReplacedTabFree(entries[..|entries| - 1], key, value);
    }
  }

  /** A printed text without its last colon, and one more entry behind it. */
  lemma PrintGrows(p: seq<byte>, name: CString, entries: seq<CString>, e: CString)
    requires p + [COLON] == Print(name, entries)
    ensures p + ([COLON, TAB, COLON] + e) + [COLON] == Print(name, entries + [e])
  {
    LinesAppend(entries, e);
    assert p + ([COLON, TAB, COLON] + e) + [COLON] == (p + [COLON]) + ([TAB, COLON] + e + [COLON]);
  }

  lemma Apart(s: seq<byte>, n: nat)
    requires n < |s|
    ensures s == s[..n] + [s[n]] + s[n + 1..]
  {
  }

  lemma EntrySplits(e: CString)
    ensures var n := UpTo(e, EQUALS); n < |e| ==> e == e[..n] + [EQUALS] + e[n + 1..]
  {
    hide UpTo;
    var n := UpTo(e, EQUALS);
    if n < |e| {
      Apart(e, n);
    }
  }

  /** The text of a good class: a parse takes it apart again. */
  lemma RecordText(c: Class)
    requires Good(c)
    ensures var text := Print(c.title, c.entries);
            && 0 !in text && text != [] && text[0] != COLON && Parse(text) == c.entries
  {
    ParsePrint(c.title, c.entries);
    NoNulInLines(c.entries);
  }

  /** The strings at the places in a list. */
  method ReadStrings(data: array<byte>, list: seq<nat>, ghost strings: seq<CString>) returns (r: seq<CString>)
    requires StringsAt(data[..], list, strings, data.Length)
    ensures r == strings
  {
    hide StringsAt, StringAt;
    SameCount(data[..], list, strings, data.Length);
    r := [];
    var i := 0;
    while i < |list|
      invariant 0 <= i <= |list| && r == strings[..i]
    {
      OneOf(data[..], list, strings, data.Length, i);
      var n := Strlen(data, list[i], strings[i]);
      Slice(data[..], list[i], strings[i]);
      r := r + [data[list[i]..list[i] + n]];
      i := i + 1;
    }
  }

  class Classes {
    const max: nat
    var db: map<CString, seq<byte>>

    constructor (max: nat, db: map<CString, seq<byte>>)
      ensures this.max == max && this.db == db
    {
      this.max, this.db := max, db;
    }

    /** The entries of a record, as strings. */
    method ReadEntries(record: seq<byte>, ghost c: Class) returns (entries: seq<CString>)
      requires Good(c) && record == Record(c) && |c.entries| <= max
      ensures entries == c.entries
    {
      hide StringsAt, StringAt, Parse, UpTo, Print, GoodTitle, TabFree;
      var data := new byte[|record|](i requires 0 <= i < |record| => record[i]);
      assert data[..] == record;
      RecordText(c);
      var list := ParseInPlace(data, Print(c.title, c.entries));
      entries := ReadStrings(data, list, c.entries);
    }

    /** The table of a class; None for an unknown class and for one without entries. */
    method Get(name: CString, ghost classes: map<CString, Class>) returns (r: Option<map<CString, Option<CString>>>)
      requires Holds(db, classes)
      requires name in classes ==> |classes[name].entries| <= max
      ensures r == if name !in classes || classes[name].entries == [] then None
                   else Some(AsTable(classes[name].entries))
    {
      hide Record, Good, KeyOf, ValueOf;
      if name !in db {
        return None;
      }
      var list := ReadEntries(db[name], classes[name]);
      if |list| == 0 {
        return None;
      }
      var table, i := map[], 0;
      while i < |list|
        invariant 0 <= i <= |list| && table == AsTable(list[..i])
      {
        assert list[..i + 1][..i] == list[..i];
        table := table[KeyOf(list[i]) := ValueOf(list[i])];
        i := i + 1;
      }
      assert list[..i] == list;
      r := Some(table);
    }

    /** Printing the entries anew, those with the key with a new value. */
    method Reprint(name: CString, list: seq<CString>, key: CString, value: CString) returns (p: seq<byte>, flag: bool)
      ensures p + [COLON] == Print(name, Replaced(list, key, value))
      ensures flag == HasKey(list, key)
    {
      hide Print, HasKey, UpTo;
      p, flag := name, false;
      PrintNone(name);
      NoKey(key);
      var i := 0;
      while i < |list|
        invariant 0 <= i <= |list|
        invariant p + [COLON] == Print(name, Replaced(list[..i], key, value))
        invariant flag == HasKey(list[..i], key)
      {
        assert list[..i + 1][..i] == list[..i];
        HasKeySplit(list[..i + 1], key);
        EntrySplits(list[i]);
        var ch := UpTo(list[i], EQUALS);
        var text: CString;
        if ch == |list[i]| {
          if list[i] != key {
            text := list[i];
          } else {
            text, flag := Entry(list[i], value), true;
          }
        } else {
          if list[i][..ch] != key {
            text := Entry(list[i][..ch], list[i][ch + 1..]);
          } else {
            text, flag := Entry(list[i][..ch], value), true;
          }
        }
        PrintGrows(p, name, Replaced(list[..i], key, value), text);
        p := p + ([COLON, TAB, COLON] + text);
        i := i + 1;
      }
      assert list[..i] == list;
    }

    /** Setting an entry: a new class, a first entry behind the text, or the text printed anew. */
    method SetEntry(name: CString, key: CString, value: CString, ghost classes: map<CString, Class>) returns (ok: bool)
      requires Holds(db, classes)
      requires name in classes ==> |classes[name].entries| <= max && |db[name]| <= BUFFER
      requires |Record(AfterSet(classes, name, key, value))| <= BUFFER
      modifies this`db
      ensures ok && db == old(db)[name := Record(AfterSet(classes, name, key, value))]
      ensures GoodTitle(name) && TAB !in key && TAB !in value ==>
                Holds(db, classes[name := AfterSet(classes, name, key, value)])
    {
      hide Good, GoodTitle, HasKey, Replaced, Entry;
      var e: CString := Entry(key, value);
      var data: seq<byte>;
      if name !in db {
        FirstEntry(name, e);
        data := [0] + (name + [COLON] + ([TAB, COLON] + e + [COLON])) + [0];
      } else {
        var record := db[name];
        var list := ReadEntries(record, classes[name]);
        if |list| == 0 {
          FirstOfNone(classes[name].title, key, value);
          data := record[..|record| - 1] + ([TAB, COLON] + e + [COLON]) + [0];
        } else {
          var p, flag := Reprint(name, list, key, value);
          if !flag {
            PrintGrows(p, name, Replaced(list, key, value), e);
            p := p + ([COLON, TAB, COLON] + e);
          }
          assert flag ==> SetIn(list, key, value) == Replaced(list, key, value);
          data := [0] + (p + [COLON]) + [0];
        }
      }
      assert data == Record(AfterSet(classes, name, key, value));
      db := db[name := data];
      ok := true;
      if GoodTitle(name) && TAB !in key && TAB !in value {
        SetIsGood(classes, name, key, value);
      }
    }

    /** Deleting an entry: the others are printed anew. */
    method DelEntry(name: CString, key: CString, ghost classes: map<CString, Class>) returns (ok: bool)
      requires Holds(db, classes)
      requires name in classes ==> |classes[name].entries| <= max && |Record(AfterDelete(classes, name, key))| <= BUFFER
      modifies this`db
      ensures ok == (name in classes)
      ensures db == if ok then old(db)[name := Record(AfterDelete(classes, name, key))] else old(db)
      ensures ok && GoodTitle(name) ==> Holds(db, classes[name := AfterDelete(classes, name, key)])
    {
      hide GoodTitle, UpTo, Print;
      if name !in db {
        return false;
      }
      var list := ReadEntries(db[name], classes[name]);
      if |list| == 0 {
        assert db[name := db[name]] == db && db[name] == Record(AfterDelete(classes, name, key));
        return true;
      }
      var p, i := name, 0;
      PrintNone(name);
      while i < |list|
        invariant 0 <= i <= |list|
        invariant p + [COLON] == Print(name, DeletedFrom(list[..i], key)) && db == old(db)
      {
        assert list[..i + 1][..i] == list[..i];
        EntrySplits(list[i]);
        var ch := UpTo(list[i], EQUALS);
        PrintGrows(p, name, DeletedFrom(list[..i], key), list[i]);
        assert DeletedFrom(list[..i], key) + [] == DeletedFrom(list[..i], key);
        if ch == |list[i]| {
          if list[i] != key {
            p := p + ([COLON, TAB, COLON] + list[i]);
          }
        } else if list[i][..ch] != key {
          p := p + ([COLON, TAB, COLON] + Entry(list[i][..ch], list[i][ch + 1..]));
        }
        i := i + 1;
      }
      assert list[..i] == list;
      var data: seq<byte> := [0] + (p + [COLON]) + [0];
      assert data == Record(AfterDelete(classes, name, key));
      db := db[name := data];
      DeletedTabFree(list, key);
      ok := true;
    }
  }

  lemma {:induction false} DeletedTabFree(entries: seq<CString>, key: CString)
    requires TabFree(entries)
    ensures TabFree(DeletedFrom(entries, key))
  {
    if entries != [] {
      DeletedTabFree(entries[..|entries| - 1], key);
    }
  }

  lemma PrintNone(name: CString)
    ensures name + [COLON] == Print(name, [])
  {
  }

  lemma NoKey(key: CString)
    ensures !HasKey([], key)
  {
  }

  lemma FirstEntry(title: CString, e: CString)
    ensures title + [COLON] + ([TAB, COLON] + e + [COLON]) == Print(title, [e])
  {
    LinesAppend([], e);
    assert [] + [e] == [e];
  }

  /** A first entry behind the text of a class that has none. */
  lemma FirstOfNone(title: CString, key: CString, value: CString)
    ensures var record := Record(Class(title, []));
            record[..|record| - 1] + ([TAB, COLON] + Entry(key, value) + [COLON]) + [0]
            == Record(Class(title, SetIn([], key, value)))
  {
    var record, e := Record(Class(title, [])), Entry(key, value);
    assert record[..|record| - 1] == [0] + (title + [COLON]);
    FirstEntry(title, e);
    assert SetIn([], key, value) == [e];
    var printed := [TAB, COLON] + e + [COLON];
    assert [0] + (title + [COLON]) + printed == [0] + (title + [COLON] + printed);
  }

  lemma Slice(b: seq<byte>, pos: nat, s: seq<byte>)
    requires StringAt(b, pos, s)
    ensures pos + |s| < |b| && b[pos..pos + |s|] == s
  {
  }
}
