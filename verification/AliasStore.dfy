/**
 * The address aliases of an interface in the property store: numbered address
 * and netmask columns and the printed list of their numbers, kept in step when
 * an alias is added or deleted.
 */
module AliasStore {
  import opened Bytes
  import opened Decimal
  import opened Lists
  import opened Splitting

  /** "0,1,...": the numbers below n. */
  function ListText(n: nat): string {
    if n == 0 then "" else if n == 1 then "0" else ListText(n - 1) + "," + Dec(n - 1)
  }

  /** What the source prints for n numbers: every number gets four bytes of buffer, and printing stops at its end. */
  function Printed(n: nat): string {
    if n == 0 then ""
    else if n == 1 then Fit(Dec(0), 4)
    else Fit(Printed(n - 1) + "," + Dec(n - 1), 4 * n)
  }

  /** The most numbers that four bytes each have room for. */
  const MOST_PRINTED: nat := 1110

  lemma {:induction false} ListLength(n: nat)
    requires n > 0
    ensures n <= 10 ==> |ListText(n)| == 2 * n - 1
    ensures 10 <= n <= 100 ==> |ListText(n)| == 3 * n - 11
    ensures 100 <= n <= 1000 ==> |ListText(n)| == 4 * n - 111
    ensures 1000 <= n <= 1111 ==> |ListText(n)| == 5 * n - 1111
    ensures n > MOST_PRINTED ==> |ListText(n)| >= 4 * n
  {
    if n > 1 {
      ListLength(n - 1);
    }
  }

  /** The list comes out whole exactly up to 1110 numbers; from there on its end is cut off. */
  lemma {:induction false} PrintedExactly(n: nat)
    requires n > 0
    ensures Printed(n) == ListText(n) <==> n <= MOST_PRINTED
  {
    ListLength(n);
    if 1 < n <= MOST_PRINTED {
      PrintedExactly(n - 1);
    }
  }

  lemma {:induction false} LongerList(m: nat, n: nat)
    requires m < n
    ensures |ListText(m)| < |ListText(n)|
    ensures m > 0 ==> ListText(m) <= ListText(n)
  {
    if m + 1 < n {
      LongerList(m, n - 1);
    }
  }

  lemma PrintedStep(n: nat)
    requires n > 1
    ensures Printed(n) == Fit(Printed(n - 1) + "," + Dec(n - 1), 4 * n)
  {
  }

  /** The first text that is cut off. */
  lemma FirstCut(m: nat)
    requires m == MOST_PRINTED + 1
    ensures |Printed(m)| == 4 * m - 1
  {
    hide Printed, ListText, Dec;
    ListLength(m - 1);
    PrintedExactly(m - 1);
    PrintedStep(m);
  }

  /** It stays so: where the list goes on with a digit, a comma was printed. */
  lemma {:induction false} CutForGood(m: nat, d: nat)
    requires m == MOST_PRINTED + 1 < d
    ensures |Printed(d)| > 4 * m - 1 && Printed(d)[4 * m - 1] == ','
    decreases d
  {
    hide Printed, Dec;
    FirstCut(m);
    PrintedStep(d);
    var text := Printed(d - 1) + "," + Dec(d - 1);
    if d > m + 1 {
      CutForGood(m, d - 1);
    }
    assert text[4 * m - 1] == ',';
  }

  /** Beyond 1110 numbers what is printed is the list of no numbers at all. */
  lemma PrintedIsNoList(d: nat, n: nat)
    requires d > MOST_PRINTED
    ensures Printed(d) != ListText(n)
  {
    hide Printed, ListText;
    var m: nat := MOST_PRINTED + 1;
    FirstCut(m);
    if m < d {
      CutForGood(m, d);
    }
    if n < m {
      ListLength(m - 1);
      if n < m - 1 {
        LongerList(n, m - 1);
      }
    } else {
      ListLength(m);
      LastDigit(m);
      if m < n {
        LongerList(m, n);
        assert ListText(n)[4 * m - 1] == ListText(m)[4 * m - 1];
      }
    }
  }

  lemma ListStep(n: nat)
    requires n > 1
    ensures ListText(n) == ListText(n - 1) + "," + Dec(n - 1)
  {
  }

  lemma DecEnd(n: nat)
    requires n >= 10
    ensures Dec(n)[|Dec(n)| - 1] == Digit(n % 10)
  {
  }

  lemma LastDigit(m: nat)
    requires m == MOST_PRINTED + 1
    ensures |ListText(m)| == 4 * m && ListText(m)[4 * m - 1] == '0'
  {
    hide ListText, Dec;
    ListLength(m);
    ListStep(m);
    DecEnd(m - 1);
  }

  /** What is printed for d numbers is the list of n exactly when d is n and not too many. */
  lemma PrintedListsExactly(d: nat, n: nat)
    requires d > 0
    ensures Printed(d) == ListText(n) <==> d == n <= MOST_PRINTED
  {
    hide Printed, ListText;
    PrintedExactly(d);
    if d > MOST_PRINTED {
      PrintedIsNoList(d, n);
    } else if d < n {
      LongerList(d, n);
    } else if n < d {
      LongerList(n, d);
    }
  }

  // ---------------------------------------------------------------------------
  // Property names
  // ---------------------------------------------------------------------------

  function Base(ifname: string, kind: string): string {
    "net:ifconfig_" + ifname + "_" + kind + "_"
  }

  function ListKey(ifname: string, kind: string): string {
    Base(ifname, kind) + "aliases"
  }

  function AliasKey(ifname: string, kind: string, i: nat): string {
    Base(ifname, kind) + ("alias_" + Dec(i))
  }

  /** The second column: netmasks for IPv4, prefix lengths for IPv6. */
  function MaskKey(ifname: string, kind: string, i: nat): string {
    Base(ifname, kind) + ((if kind == "ip4" then "netmask_" else "prefix_") + Dec(i))
  }

  lemma Tail(base: string, a: string, b: string)
    requires base + a == base + b
    ensures a == b
  {
    assert (base + a)[|base|..] == a && (base + b)[|base|..] == b;
  }

  /** All property names of one interface and kind are different. */
  lemma KeysDiffer(ifname: string, kind: string, i: nat, j: nat)
    ensures AliasKey(ifname, kind, i) == AliasKey(ifname, kind, j) ==> i == j
    ensures MaskKey(ifname, kind, i) == MaskKey(ifname, kind, j) ==> i == j
    ensures AliasKey(ifname, kind, i) != MaskKey(ifname, kind, j)
    ensures ListKey(ifname, kind) != AliasKey(ifname, kind, i)
    ensures ListKey(ifname, kind) != MaskKey(ifname, kind, i)
  {
    var base, column := Base(ifname, kind), if kind == "ip4" then "netmask_" else "prefix_";
    var a, b, m, l := "alias_" + Dec(i), "alias_" + Dec(j), column + Dec(j), "aliases";
    assert a[0] == 'a' && m[0] != 'a' && a[5] == '_' && l[5] == 'e' && (column + Dec(i))[0] != l[0];
    if AliasKey(ifname, kind, i) == AliasKey(ifname, kind, j) {
      Tail(base, a, b);
      Tail("alias_", Dec(i), Dec(j));
      DecInjective(i, j);
    }
    if MaskKey(ifname, kind, i) == MaskKey(ifname, kind, j) {
      Tail(base, column + Dec(i), m);
      Tail(column, Dec(i), Dec(j));
      DecInjective(i, j);
    }
    assert (base + a)[|base|] == 'a' && (base + m)[|base|] == m[0] && (base + (column + Dec(i)))[|base|] == column[0];
    assert (base + l)[|base| + 5] == 'e' && (base + a)[|base| + 5] == '_' && (base + l)[|base|] == 'a';
  }

  lemma AllKeysDiffer(ifname: string, kind: string)
    ensures forall i: nat, j: nat {:trigger AliasKey(ifname, kind, i), AliasKey(ifname, kind, j)} ::
              AliasKey(ifname, kind, i) == AliasKey(ifname, kind, j) ==> i == j
    ensures forall i: nat, j: nat {:trigger MaskKey(ifname, kind, i), MaskKey(ifname, kind, j)} ::
              MaskKey(ifname, kind, i) == MaskKey(ifname, kind, j) ==> i == j
    ensures forall i: nat, j: nat {:trigger AliasKey(ifname, kind, i), MaskKey(ifname, kind, j)} ::
              AliasKey(ifname, kind, i) != MaskKey(ifname, kind, j)
    ensures forall i: nat {:trigger AliasKey(ifname, kind, i)} :: ListKey(ifname, kind) != AliasKey(ifname, kind, i)
    ensures forall i: nat {:trigger MaskKey(ifname, kind, i)} :: ListKey(ifname, kind) != MaskKey(ifname, kind, i)
  {
    hide AliasKey, MaskKey, ListKey;
    forall i: nat, j: nat
      ensures AliasKey(ifname, kind, i) == AliasKey(ifname, kind, j) ==> i == j
      ensures MaskKey(ifname, kind, i) == MaskKey(ifname, kind, j) ==> i == j
      ensures AliasKey(ifname, kind, i) != MaskKey(ifname, kind, j)
      ensures ListKey(ifname, kind) != AliasKey(ifname, kind, i)
      ensures ListKey(ifname, kind) != MaskKey(ifname, kind, i)
    {
      KeysDiffer(ifname, kind, i, j);
    }
  }

  // ---------------------------------------------------------------------------
  // Columns
  // ---------------------------------------------------------------------------

  type Props = map<string, string>

  function Lookup(props: Props, key: string): Option<string> {
    if key in props then Some(props[key]) else None
  }

  function At(column: seq<string>, i: nat): Option<string> {
    if i < |column| then Some(column[i]) else None
  }

  /** The two columns hold exactly the given aliases, numbered from 0, and nothing behind them. */
  ghost predicate Columns(props: Props, ifname: string, kind: string, addr: seq<string>, mask: seq<string>) {
    && |addr| == |mask|
    && (forall i: nat {:trigger AliasKey(ifname, kind, i)} :: Lookup(props, AliasKey(ifname, kind, i)) == At(addr, i))
    && (forall i: nat {:trigger MaskKey(ifname, kind, i)} :: Lookup(props, MaskKey(ifname, kind, i)) == At(mask, i))
  }

  /** Columns, and the list naming their numbers. */
  ghost predicate Consistent(props: Props, ifname: string, kind: string, addr: seq<string>, mask: seq<string>) {
    && Columns(props, ifname, kind, addr, mask)
    && Lookup(props, ListKey(ifname, kind)) == if addr == [] then None else Some(ListText(|addr|))
  }

  /** A column after its entry d is deleted, if it has one. */
  function Deleted(column: seq<string>, d: nat): (r: seq<string>)
    ensures |r| == if d < |column| then |column| - 1 else |column|
  {
    if d < |column| then Without(column, d) else column
  }

  /** How many numbers are printed when alias d of n is deleted. */
  function NumbersLeft(n: nat, d: nat): int {
    if d < n then n - 1 else d
  }

  /** Entry i of a column from which entry d is being removed, when the entries below k have moved up. */
  function Moving(column: seq<string>, d: nat, k: nat, i: nat): Option<string>
    requires d < k <= |column|
  {
    if d <= i < k - 1 then Some(column[i + 1])
    else if i == d then None
    else At(column, i)
  }

  ghost predicate MovingColumns(props: Props, ifname: string, kind: string, addr: seq<string>, mask: seq<string>,
                                d: nat, k: nat)
    requires d < k <= |addr| == |mask|
  {
    && (forall i: nat {:trigger AliasKey(ifname, kind, i)} ::
          Lookup(props, AliasKey(ifname, kind, i)) == Moving(addr, d, k, i))
    && (forall i: nat {:trigger MaskKey(ifname, kind, i)} ::
          Lookup(props, MaskKey(ifname, kind, i)) == Moving(mask, d, k, i))
  }

  /** A property that belongs to the aliases of an interface. */
  ghost predicate Own(ifname: string, kind: string, key: string) {
    || key == ListKey(ifname, kind)
    || (exists i: nat :: key == AliasKey(ifname, kind, i))
    || (exists i: nat :: key == MaskKey(ifname, kind, i))
  }

  /** Nothing but the aliases of an interface has changed. */
  ghost predicate SameElsewhere(before: Props, after: Props, ifname: string, kind: string) {
    forall key | !Own(ifname, kind, key) :: Lookup(after, key) == Lookup(before, key)
  }

  /** Moving entry k up to k - 1 in both columns. */
  lemma MoveUp(props: Props, ifname: string, kind: string, addr: seq<string>, mask: seq<string>, d: nat, k: nat)
    requires d < k < |addr| == |mask|
    requires MovingColumns(props, ifname, kind, addr, mask, d, k)
    ensures MovingColumns(props[AliasKey(ifname, kind, k - 1) := addr[k]][MaskKey(ifname, kind, k - 1) := mask[k]],
                          ifname, kind, addr, mask, d, k + 1)
  {
    hide AliasKey, MaskKey, ListKey;
    AllKeysDiffer(ifname, kind);
  }

  /** Once the last entry has moved up, its old place goes. */
  lemma CloseGap(props: Props, ifname: string, kind: string, addr: seq<string>, mask: seq<string>, d: nat)
    requires d < |addr| == |mask|
    requires MovingColumns(props, ifname, kind, addr, mask, d, |addr|)
    ensures Columns(props - {MaskKey(ifname, kind, |addr| - 1)} - {AliasKey(ifname, kind, |addr| - 1)},
                    ifname, kind, Without(addr, d), Without(mask, d))
    ensures d == |addr| - 1 ==> Columns(props, ifname, kind, Without(addr, d), Without(mask, d))
  {
    hide AliasKey, MaskKey, ListKey;
    AllKeysDiffer(ifname, kind);
  }

  /** The list property is none of the columns'. */
  lemma SetList(props: Props, ifname: string, kind: string, addr: seq<string>, mask: seq<string>, text: string)
    requires Columns(props, ifname, kind, addr, mask)
    ensures Columns(props[ListKey(ifname, kind) := text], ifname, kind, addr, mask)
  {
    hide AliasKey, MaskKey, ListKey;
    AllKeysDiffer(ifname, kind);
  }

  /** Moving an alias up touches only the two columns. */
  lemma SameAfterMove(before: Props, now: Props, after: Props, ifname: string, kind: string, i: nat,
                      a: string, m: string)
    requires SameElsewhere(before, now, ifname, kind)
    requires after == now[AliasKey(ifname, kind, i) := a][MaskKey(ifname, kind, i) := m]
    ensures SameElsewhere(before, after, ifname, kind)
    ensures Lookup(after, ListKey(ifname, kind)) == Lookup(now, ListKey(ifname, kind))
  {
    hide AliasKey, MaskKey, ListKey;
    KeysDiffer(ifname, kind, i, i);
    assert Own(ifname, kind, AliasKey(ifname, kind, i)) && Own(ifname, kind, MaskKey(ifname, kind, i));
  }

  /** So does removing one, and writing the list. */
  lemma SameAfterClose(now: Props, ifname: string, kind: string, i: nat, text: string)
    ensures SameElsewhere(now, now[ListKey(ifname, kind) := text], ifname, kind)
    ensures var gone := now - {MaskKey(ifname, kind, i)} - {AliasKey(ifname, kind, i)};
            SameElsewhere(now, gone[ListKey(ifname, kind) := text], ifname, kind)
  {
    hide AliasKey, MaskKey, ListKey;
    assert Own(ifname, kind, AliasKey(ifname, kind, i)) && Own(ifname, kind, MaskKey(ifname, kind, i));
    assert Own(ifname, kind, ListKey(ifname, kind));
  }

  class Store {
    var props: Props

    method Get(key: string) returns (r: Option<string>)
      ensures r == Lookup(props, key)
    {
      r := if key in props then Some(props[key]) else None;
    }

    method Set(key: string, value: string)
      modifies this
      ensures props == old(props)[key := value]
    {
      props := props[key := value];
    }

    method Del(key: string)
      modifies this
      ensures props == old(props) - {key}
    {
      props := props - {key};
    }

    /** Prints one more number behind n numbers in a buffer that has grown to 4 * (n + 1) bytes. */
    method Append(text: Option<string>, n: nat) returns (r: string)
      requires text == if n == 0 then None else Some(Printed(n))
      ensures r == Printed(n + 1)
    {
      var size := 4 * (n + 1);
      if size - 4 == 0 {
        r := Fit(Dec(n), size);
      } else {
        r := Fit(text.value + "," + Dec(n), size);
      }
    }

    /**
     * Moves every alias behind the deleted one up by one number, printing the numbers that are in use; k is the
     * first number without an alias. Behind the last alias there is nothing to move.
     */
    method MoveColumns(d: nat, ifname: string, kind: string, start: Option<string>,
                       ghost addr: seq<string>, ghost mask: seq<string>)
      returns (k: nat, text: Option<string>)
      requires |addr| == |mask|
      requires if d < |addr| then MovingColumns(props, ifname, kind, addr, mask, d, d + 1)
               else Columns(props, ifname, kind, addr, mask)
      requires start == if d == 0 then None else Some(Printed(d))
      modifies this
      ensures d < |addr| ==> k == |addr| && MovingColumns(props, ifname, kind, addr, mask, d, k)
      ensures d >= |addr| ==> k == d + 1 && props == old(props)
      ensures text == if k == 1 then None else Some(Printed(k - 1))
      ensures Lookup(props, ListKey(ifname, kind)) == old(Lookup(props, ListKey(ifname, kind)))
      ensures SameElsewhere(old(props), props, ifname, kind)
    {
      hide AliasKey, MaskKey, ListKey, Printed, Own;
      ghost var before, list := props, Lookup(props, ListKey(ifname, kind));
      text := start;
      k := d + 1;
      var value := Get(AliasKey(ifname, kind, k));
      while value.Some?
        invariant d < |addr| ==> d < k <= |addr| && MovingColumns(props, ifname, kind, addr, mask, d, k)
        invariant d >= |addr| ==> k == d + 1 && props == before
        invariant value == At(addr, k)
        invariant text == if k == 1 then None else Some(Printed(k - 1))
        invariant Lookup(props, ListKey(ifname, kind)) == list
        invariant SameElsewhere(before, props, ifname, kind)
        decreases |addr| - k
      {
        ghost var now := props;
        MoveUp(now, ifname, kind, addr, mask, d, k);
        Set(AliasKey(ifname, kind, k - 1), value.value);
        var second := Get(MaskKey(ifname, kind, k));
        assert second == Some(mask[k]) by {
          KeysDiffer(ifname, kind, k - 1, k);
          assert Lookup(now, MaskKey(ifname, kind, k)) == Some(mask[k]);
        }
        Set(MaskKey(ifname, kind, k - 1), second.value);
        SameAfterMove(before, now, props, ifname, kind, k - 1, addr[k], mask[k]);
        var t := Append(text, k - 1);
        text := Some(t);
        k := k + 1;
        value := Get(AliasKey(ifname, kind, k));
      }
    }

    /**
     * Closes the gap that deleting alias d has left, and prints the list anew. The list that is there must not be
     * "0", which is that of a single alias, and some number must be left to print.
     */
    method UpDeletedIp(d: nat, ifname: string, kind: string, ghost addr: seq<string>, ghost mask: seq<string>)
      requires |addr| == |mask| && (d > 0 || |addr| >= 2)
      requires if d < |addr| then MovingColumns(props, ifname, kind, addr, mask, d, d + 1)
               else Columns(props, ifname, kind, addr, mask)
      requires Lookup(props, ListKey(ifname, kind)) != Some("0")
      modifies this
      ensures Columns(props, ifname, kind, Deleted(addr, d), Deleted(mask, d))
      ensures Lookup(props, ListKey(ifname, kind)) == Some(Printed(NumbersLeft(|addr|, d)))
      ensures SameElsewhere(old(props), props, ifname, kind)
    {
      hide AliasKey, MaskKey, ListKey, Printed, Own, Columns, MovingColumns;
      var text: Option<string> := None;
      for i := 0 to d
        invariant text == if i == 0 then None else Some(Printed(i))
        invariant props == old(props)
      {
        var t := Append(text, i);
        text := Some(t);
      }
      var k;
      k, text := MoveColumns(d, ifname, kind, text, addr, mask);
      ghost var moved := props;
      if d < |addr| {
        CloseGap(props, ifname, kind, addr, mask, d);
      }
      if k > d + 1 {
        Del(MaskKey(ifname, kind, k - 1));
        Del(AliasKey(ifname, kind, k - 1));
      }
      SetList(props, ifname, kind, Deleted(addr, d), Deleted(mask, d), text.value);
      SameAfterClose(moved, ifname, kind, k - 1, text.value);
      Set(ListKey(ifname, kind), text.value);
    }

    /**
     * Deletes alias d from the stored configuration of an interface, when some number is left to print. The columns
     * become the old ones without entry d, if they have one. The list comes out right exactly when d is the number of
     * an alias or the next one, and at most 1110 aliases remain.
     */
    method Ip4Del(ifname: string, d: nat, ghost addr: seq<string>, ghost mask: seq<string>)
      requires Columns(props, ifname, "ip4", addr, mask) && (d > 0 || |addr| >= 2)
      requires Lookup(props, ListKey(ifname, "ip4")) != Some("0")
      modifies this
      ensures Columns(props, ifname, "ip4", Deleted(addr, d), Deleted(mask, d))
      ensures Consistent(props, ifname, "ip4", Deleted(addr, d), Deleted(mask, d)) <==>
              d <= |addr| && NumbersLeft(|addr|, d) <= MOST_PRINTED
      ensures SameElsewhere(old(props), props, ifname, "ip4")
    {
      assert |addr| == |mask|;
      hide AliasKey, MaskKey, ListKey, Own, Columns, MovingColumns, Printed, ListText, SameElsewhere;
      ghost var before := props;
      if d < |addr| {
        OpenGap(props, ifname, addr, mask, d);
      } else {
        NothingThere(props, ifname, addr, mask, d);
      }
      Del(AliasKey(ifname, "ip4", d));
      Del(MaskKey(ifname, "ip4", d));
      ghost var gap := props;
      UpDeletedIp(d, ifname, "ip4", addr, mask);
      SameTwice(before, gap, props, ifname, "ip4");
      PrintedListsExactly(NumbersLeft(|addr|, d), |Deleted(addr, d)|);
    }

    /**
     * Stores alias num of an interface: a new address for an existing alias, or another one. The source prints the
     * number into two bytes, so the list comes out right exactly for numbers of one digit or numbers in the list.
     * A number behind the next free one leaves columns with a gap. With the setting type AUTO the flags of the
     * interface are stored as well.
     */
    method AddNewIp4(ifname: string, num: nat, ip: string, netmask: string, enabled: bool, auto: bool,
                     ghost addr: seq<string>, ghost mask: seq<string>)
      requires Consistent(props, ifname, "ip4", addr, mask)
      modifies this
      ensures Extended(props, ifname, addr, mask, num, ip, netmask)
      ensures num <= |addr| ==>
                && Columns(props, ifname, "ip4", Put(addr, num, ip), Put(mask, num, netmask))
                && (Consistent(props, ifname, "ip4", Put(addr, num, ip), Put(mask, num, netmask)) <==>
                    num < |addr| || num <= 9)
      ensures num > |addr| ==> forall a, m :: !Columns(props, ifname, "ip4", a, m)
      ensures Lookup(props, EnableKey(ifname)) == Some(if enabled then "true" else "false")
      ensures Lookup(props, FlagsKey(ifname)) == if auto then Some("up") else Lookup(old(props), FlagsKey(ifname))
      ensures forall key | !Own(ifname, "ip4", key) && key != EnableKey(ifname) && key != FlagsKey(ifname) ::
                Lookup(props, key) == Lookup(old(props), key)
    {
      assert |addr| == |mask|;
      hide AliasKey, MaskKey, ListKey, EnableKey, FlagsKey, NewList, ListText, Columns, Extended, Put, Own, Lookup;
      ghost var before := props;
      Set(EnableKey(ifname), if enabled then "true" else "false");
      Set(AliasKey(ifname, "ip4", num), ip);
      Set(MaskKey(ifname, "ip4", num), netmask);
      if auto {
        Set(FlagsKey(ifname), "up");
      }
      ghost var stored := props;
      AliasStored(before, ifname, addr, mask, num, ip, netmask, if enabled then "true" else "false", auto);
      AddToList(ifname, num);
      ListStored(stored, ifname, addr, mask, num, ip, netmask, props[ListKey(ifname, "ip4")]);
      if num <= |addr| {
        ExtendedColumns(props, ifname, addr, mask, num, ip, netmask);
        NewListExactly(|addr|, num);
      } else {
        forall a, m
          ensures !Columns(props, ifname, "ip4", a, m)
        {
          ExtendedGap(props, ifname, addr, mask, num, ip, netmask, a, m);
        }
      }
    }

    /** Adds a number to the printed list unless the list names it already. */
    method AddToList(ifname: string, num: nat)
      modifies this
      ensures props == old(props)[ListKey(ifname, "ip4") := NewList(Lookup(old(props), ListKey(ifname, "ip4")), num)]
    {
      var list := Get(ListKey(ifname, "ip4"));
      var text := Fit(Dec(num), 2);
      if list.None? {
        Set(ListKey(ifname, "ip4"), text);
      } else {
        var known := false;
        var tokens := Tokens(list.value, ',');
        for i := 0 to |tokens|
          invariant known <==> text in tokens[..i]
          invariant props == old(props)
        {
          known := known || tokens[i] == text;
        }
        assert tokens[..|tokens|] == tokens;
        if !known {
          Set(ListKey(ifname, "ip4"), Fit(list.value + "," + text, |list.value| + 5));
        }
      }
    }
  }

  /** The list after adding a number, of which two bytes of buffer keep one digit. */
  function NewList(list: Option<string>, num: nat): string {
    var text := Fit(Dec(num), 2);
    match list
    case None => text
    case Some(v) => if text in Tokens(v, ',') then v else Fit(v + "," + text, |v| + 5)
  }

  function EnableKey(ifname: string): string {
    "net:ifconfig_" + ifname + "_" + "enable"
  }

  function FlagsKey(ifname: string): string {
    "net:ifconfig_" + ifname + "_" + "flags"
  }

  /** The two properties of the interface itself are none of its aliases', and not the same. */
  lemma OthersDiffer(ifname: string)
    ensures forall i: nat {:trigger AliasKey(ifname, "ip4", i)} ::
              AliasKey(ifname, "ip4", i) != EnableKey(ifname) && AliasKey(ifname, "ip4", i) != FlagsKey(ifname)
    ensures forall i: nat {:trigger MaskKey(ifname, "ip4", i)} ::
              MaskKey(ifname, "ip4", i) != EnableKey(ifname) && MaskKey(ifname, "ip4", i) != FlagsKey(ifname)
    ensures ListKey(ifname, "ip4") != EnableKey(ifname) && ListKey(ifname, "ip4") != FlagsKey(ifname)
    ensures EnableKey(ifname) != FlagsKey(ifname)
  {
    var start := "net:ifconfig_" + ifname + "_";
    assert EnableKey(ifname)[|start|] == 'e' && FlagsKey(ifname)[|start|] == 'f';
    forall i: nat
      ensures AliasKey(ifname, "ip4", i)[|start|] == 'i' && MaskKey(ifname, "ip4", i)[|start|] == 'i'
    {
    }
    assert ListKey(ifname, "ip4")[|start|] == 'i';
  }

  /** Entry i of a column in which entry num is set, whether or not the entries before it are there. */
  function With(column: seq<string>, num: nat, value: string, i: nat): Option<string> {
    if i == num then Some(value) else At(column, i)
  }

  /** The columns hold what they held, and alias num. */
  ghost predicate Extended(props: Props, ifname: string, addr: seq<string>, mask: seq<string>, num: nat,
                           ip: string, netmask: string) {
    && (forall i: nat {:trigger AliasKey(ifname, "ip4", i)} ::
          Lookup(props, AliasKey(ifname, "ip4", i)) == With(addr, num, ip, i))
    && (forall i: nat {:trigger MaskKey(ifname, "ip4", i)} ::
          Lookup(props, MaskKey(ifname, "ip4", i)) == With(mask, num, netmask, i))
  }

  /** Up to the next free number the columns are columns again. */
  lemma ExtendedColumns(props: Props, ifname: string, addr: seq<string>, mask: seq<string>, num: nat,
                        ip: string, netmask: string)
    requires Extended(props, ifname, addr, mask, num, ip, netmask) && num <= |addr| == |mask|
    ensures Columns(props, ifname, "ip4", Put(addr, num, ip), Put(mask, num, netmask))
  {
    hide AliasKey, MaskKey;
  }

  /** Behind it they have a gap. */
  lemma ExtendedGap(props: Props, ifname: string, addr: seq<string>, mask: seq<string>, num: nat,
                    ip: string, netmask: string, a: seq<string>, m: seq<string>)
    requires Extended(props, ifname, addr, mask, num, ip, netmask) && num > |addr|
    ensures !Columns(props, ifname, "ip4", a, m)
  {
    hide AliasKey, MaskKey;
    assert Lookup(props, AliasKey(ifname, "ip4", num)) == Some(ip);
    assert Lookup(props, AliasKey(ifname, "ip4", |addr|)) == None;
  }

  /** The same aliases in both stores. */
  ghost predicate SameColumns(a: Props, b: Props, ifname: string) {
    && (forall i: nat {:trigger AliasKey(ifname, "ip4", i)} ::
          Lookup(b, AliasKey(ifname, "ip4", i)) == Lookup(a, AliasKey(ifname, "ip4", i)))
    && (forall i: nat {:trigger MaskKey(ifname, "ip4", i)} ::
          Lookup(b, MaskKey(ifname, "ip4", i)) == Lookup(a, MaskKey(ifname, "ip4", i)))
  }

  lemma ColumnsStay(a: Props, b: Props, ifname: string, addr: seq<string>, mask: seq<string>)
    requires SameColumns(a, b, ifname) && Columns(a, ifname, "ip4", addr, mask)
    ensures Columns(b, ifname, "ip4", addr, mask)
  {
    hide AliasKey, MaskKey;
  }

  lemma ExtendedStays(a: Props, b: Props, ifname: string, addr: seq<string>, mask: seq<string>, num: nat,
                      ip: string, netmask: string)
    requires SameColumns(a, b, ifname) && Extended(a, ifname, addr, mask, num, ip, netmask)
    ensures Extended(b, ifname, addr, mask, num, ip, netmask)
  {
    hide AliasKey, MaskKey;
  }

  /** Setting one of them, or the list, leaves the aliases alone. */
  lemma SetOther(props: Props, ifname: string, key: string, value: string)
    requires key == EnableKey(ifname) || key == FlagsKey(ifname) || key == ListKey(ifname, "ip4")
    ensures SameColumns(props, props[key := value], ifname)
  {
    hide AliasKey, MaskKey, ListKey, EnableKey, FlagsKey;
    OthersDiffer(ifname);
    AllKeysDiffer(ifname, "ip4");
  }

  /** A column with an entry replaced, or with one more entry. */
  function Put(column: seq<string>, i: nat, value: string): (r: seq<string>)
    requires i <= |column|
    ensures |r| == if i < |column| then |column| else |column| + 1
  {
    column[..i] + [value] + if i < |column| then column[i + 1..] else []
  }

  /** Deleting an alias that is not there changes nothing. */
  lemma NothingThere(props: Props, ifname: string, addr: seq<string>, mask: seq<string>, d: nat)
    requires d >= |addr| && Columns(props, ifname, "ip4", addr, mask)
    ensures props - {AliasKey(ifname, "ip4", d)} - {MaskKey(ifname, "ip4", d)} == props
    ensures SameElsewhere(props, props, ifname, "ip4")
  {
    hide AliasKey, MaskKey, Own;
    assert Lookup(props, AliasKey(ifname, "ip4", d)).None? && Lookup(props, MaskKey(ifname, "ip4", d)).None?;
  }

  lemma SameTwice(a: Props, b: Props, c: Props, ifname: string, kind: string)
    requires SameElsewhere(a, b, ifname, kind) && SameElsewhere(b, c, ifname, kind)
    ensures SameElsewhere(a, c, ifname, kind)
  {
    hide Own;
  }

  /** Deleting both entries of an alias leaves a gap. */
  lemma OpenGap(props: Props, ifname: string, addr: seq<string>, mask: seq<string>, d: nat)
    requires d < |addr| == |mask| && Columns(props, ifname, "ip4", addr, mask)
    ensures var gap := props - {AliasKey(ifname, "ip4", d)} - {MaskKey(ifname, "ip4", d)};
            && MovingColumns(gap, ifname, "ip4", addr, mask, d, d + 1)
            && Lookup(gap, ListKey(ifname, "ip4")) == Lookup(props, ListKey(ifname, "ip4"))
            && SameElsewhere(props, gap, ifname, "ip4")
  {
    hide AliasKey, MaskKey, ListKey;
    AllKeysDiffer(ifname, "ip4");
    assert Own(ifname, "ip4", AliasKey(ifname, "ip4", d)) && Own(ifname, "ip4", MaskKey(ifname, "ip4", d));
  }

  /** Setting both entries of an alias. */
  lemma AddColumns(props: Props, ifname: string, addr: seq<string>, mask: seq<string>, num: nat,
                   ip: string, netmask: string)
    requires Columns(props, ifname, "ip4", addr, mask)
    ensures var after := props[AliasKey(ifname, "ip4", num) := ip][MaskKey(ifname, "ip4", num) := netmask];
            && Extended(after, ifname, addr, mask, num, ip, netmask)
            && Lookup(after, ListKey(ifname, "ip4")) == Lookup(props, ListKey(ifname, "ip4"))
            && forall key | !Own(ifname, "ip4", key) :: Lookup(after, key) == Lookup(props, key)
  {
    hide AliasKey, MaskKey, ListKey;
    AllKeysDiffer(ifname, "ip4");
    assert Own(ifname, "ip4", AliasKey(ifname, "ip4", num)) && Own(ifname, "ip4", MaskKey(ifname, "ip4", num));
  }

  /** The store once an alias is in its columns. */
  function WithAlias(props: Props, ifname: string, num: nat, ip: string, netmask: string, enable: string, auto: bool)
    : Props
  {
    var enabling := props[EnableKey(ifname) := enable];
    var adding := enabling[AliasKey(ifname, "ip4", num) := ip][MaskKey(ifname, "ip4", num) := netmask];
    if auto then adding[FlagsKey(ifname) := "up"] else adding
  }

  lemma AliasStored(props: Props, ifname: string, addr: seq<string>, mask: seq<string>, num: nat,
                    ip: string, netmask: string, enable: string, auto: bool)
    requires Columns(props, ifname, "ip4", addr, mask)
    ensures var after := WithAlias(props, ifname, num, ip, netmask, enable, auto);
            && Extended(after, ifname, addr, mask, num, ip, netmask)
            && Lookup(after, ListKey(ifname, "ip4")) == Lookup(props, ListKey(ifname, "ip4"))
            && Lookup(after, EnableKey(ifname)) == Some(enable)
            && Lookup(after, FlagsKey(ifname)) == (if auto then Some("up") else Lookup(props, FlagsKey(ifname)))
            && forall key | !Own(ifname, "ip4", key) && key != EnableKey(ifname) && key != FlagsKey(ifname) ::
                 Lookup(after, key) == Lookup(props, key)
  {
    hide AliasKey, MaskKey, ListKey, EnableKey, FlagsKey, Columns, Extended, SameColumns, Own;
    OthersDiffer(ifname);
    var enabling := props[EnableKey(ifname) := enable];
    SetOther(props, ifname, EnableKey(ifname), enable);
    ColumnsStay(props, enabling, ifname, addr, mask);
    AddColumns(enabling, ifname, addr, mask, num, ip, netmask);
    OthersNotOwn(ifname);
    if auto {
      var adding := enabling[AliasKey(ifname, "ip4", num) := ip][MaskKey(ifname, "ip4", num) := netmask];
      SetOther(adding, ifname, FlagsKey(ifname), "up");
      ExtendedStays(adding, adding[FlagsKey(ifname) := "up"], ifname, addr, mask, num, ip, netmask);
    }
  }

  lemma OthersNotOwn(ifname: string)
    ensures !Own(ifname, "ip4", EnableKey(ifname)) && !Own(ifname, "ip4", FlagsKey(ifname))
  {
    hide AliasKey, MaskKey, ListKey, EnableKey, FlagsKey;
    OthersDiffer(ifname);
  }

  /** Storing the list changes nothing else. */
  lemma ListStored(props: Props, ifname: string, addr: seq<string>, mask: seq<string>, num: nat,
                   ip: string, netmask: string, text: string)
    requires Extended(props, ifname, addr, mask, num, ip, netmask)
    ensures var after := props[ListKey(ifname, "ip4") := text];
            && Extended(after, ifname, addr, mask, num, ip, netmask)
            && Lookup(after, ListKey(ifname, "ip4")) == Some(text)
            && Lookup(after, EnableKey(ifname)) == Lookup(props, EnableKey(ifname))
            && Lookup(after, FlagsKey(ifname)) == Lookup(props, FlagsKey(ifname))
            && forall key | !Own(ifname, "ip4", key) :: Lookup(after, key) == Lookup(props, key)
  {
    assert Own(ifname, "ip4", ListKey(ifname, "ip4"));
    hide AliasKey, MaskKey, ListKey, EnableKey, FlagsKey, Extended, SameColumns, Own;
    OthersDiffer(ifname);
    SetOther(props, ifname, ListKey(ifname, "ip4"), text);
    ExtendedStays(props, props[ListKey(ifname, "ip4") := text], ifname, addr, mask, num, ip, netmask);
  }

  lemma ZeroText()
    ensures Dec(0) == "0"
  {
  }

  lemma {:induction false} ListPieces(n: nat)
    requires n > 0
    ensures |Pieces(ListText(n), ',')| == n
    ensures forall i: nat | i < n :: Pieces(ListText(n), ',')[i] == Dec(i)
  {
    hide Dec;
    if n == 1 {
      ZeroText();
      PiecesOfOne("0", ',');
    } else {
      ListPieces(n - 1);
      PiecesOfAppended(ListText(n - 1), ',', Dec(n - 1));
    }
  }

  /** The list names exactly the numbers below n. */
  lemma ListNames(n: nat, num: nat)
    requires n > 0
    ensures Dec(num) in Tokens(ListText(n), ',') <==> num < n
  {
    hide Dec, ListText;
    ListPieces(n);
    var pieces := Pieces(ListText(n), ',');
    if Dec(num) in pieces {
      var i :| 0 <= i < n && pieces[i] == Dec(num);
      DecInjective(num, i);
    }
    if num < n {
      assert pieces[num] == Dec(num);
    }
  }

  /** Adding the next number to a list gives the list of one more exactly when the number has one digit. */
  lemma NewListExactly(n: nat, num: nat)
    requires num <= n
    ensures NewList(if n == 0 then None else Some(ListText(n)), num) == ListText(if num < n then n else n + 1)
            <==> num < n || num <= 9
  {
    hide Tokens;
    if n > 0 {
      ListNames(n, num);
      ListLength(n);
      ListLength(n + 1);
      if num > 9 {
        var d := FirstDigit(num);
        ListNames(n, d);
      }
    }
  }

  lemma {:induction false} FirstDigit(n: nat) returns (d: nat)
    requires n >= 10
    ensures d < 10 && Fit(Dec(n), 2) == Dec(d)
  {
    if n < 100 {
      d := n / 10;
    } else {
      d := FirstDigit(n / 10);
      assert Dec(n)[..1] == Dec(n / 10)[..1];
    }
  }
}
