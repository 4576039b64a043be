/** The disassembler's register lists: a mask printed as single registers and ranges. */
module RegisterList {
  import opened Wrappers

  const REGISTERS := 18

  function Mnemonic(r: int): string
    requires 0 <= r < REGISTERS
  {
    ["r0", "r1", "r2", "r3", "r4", "r5", "r6", "r7", "r8", "r9",
     "r10", "r11", "r12", "sp", "lr", "pc", "cpsr", "spsr"][r]
  }

  /** Bit i of an instruction word. */
  predicate Bit(word: nat, i: nat) {
    if i == 0 then word % 2 == 1 else Bit(word / 2, i - 1)
  }

  // ----- items ---------------------------------------------------------------

  datatype Item = One(r: int) | Span(first: int, last: int) {
    predicate Valid() {
      match this
      case One(r) => 0 <= r < REGISTERS
      case Span(a, b) => 0 <= a < REGISTERS && 0 <= b < REGISTERS
    }

    predicate Names(r: int) {
      match this
      case One(q) => r == q
      case Span(a, b) => a <= r <= b
    }

    function Text(): string
      requires Valid()
    {
      match this
      case One(r) => Mnemonic(r)
      case Span(a, b) => Mnemonic(a) + "-" + Mnemonic(b)
    }
  }

  predicate AllValid(items: seq<Item>) {
    forall i :: 0 <= i < |items| ==> items[i].Valid()
  }

  /** Register r is one of those that the items name. */
  predicate Denotes(items: seq<Item>, r: int) {
    exists i :: 0 <= i < |items| && items[i].Names(r)
  }

  /** The items with a comma behind each. */
  function Stream(items: seq<Item>): string
    requires AllValid(items)
  {
    if items == [] then "" else items[0].Text() + "," + Stream(items[1..])
  }

  /** The items with a comma between any two. */
  function Joined(items: seq<Item>): string
    requires AllValid(items)
  {
    if items == [] then "" else if |items| == 1 then items[0].Text() else items[0].Text() + "," + Joined(items[1..])
  }

  // ----- reading a list back -------------------------------------------------

  function RegisterFrom(name: string, i: nat): Option<int>
    requires i <= REGISTERS
    decreases REGISTERS - i
  {
    if i == REGISTERS then None else if Mnemonic(i) == name then Some(i) else RegisterFrom(name, i + 1)
  }

  /** The first place of c in s, or the length of s. */
  function Find(s: string, c: char): (k: nat)
    ensures k <= |s| && (k < |s| ==> s[k] == c) && forall i :: 0 <= i < k ==> s[i] != c
  {
    if s == "" || s[0] == c then 0 else 1 + Find(s[1..], c)
  }

  function ReadItem(s: string): Option<Item> {
    var k := Find(s, '-');
    if k == |s| then
      var r := RegisterFrom(s, 0);
      if r.Some? then Some(One(r.value)) else None
    else
      var a, b := RegisterFrom(s[..k], 0), RegisterFrom(s[k + 1..], 0);
      if a.Some? && b.Some? then Some(Span(a.value, b.value)) else None
  }

  /** A list that is not empty. */
  function ReadItems(s: string): Option<seq<Item>>
    decreases |s|
  {
    var k := Find(s, ',');
    var item := ReadItem(s[..k]);
    if item.None? then None
    else if k == |s| then Some([item.value])
    else
      var rest := ReadItems(s[k + 1..]);
      if rest.None? then None else Some([item.value] + rest.value)
  }

  function Read(s: string): Option<seq<Item>> {
    if s == "" then Some([]) else ReadItems(s)
  }

  lemma MnemonicShape(r: int)
    requires 0 <= r < REGISTERS
    ensures var s := Mnemonic(r); s != "" && forall i :: 0 <= i < |s| ==> s[i] != ',' && s[i] != '-'
  {
  }

  lemma MnemonicsDiffer(q: int, r: int)
    requires 0 <= q < r < REGISTERS
    ensures Mnemonic(q) != Mnemonic(r)
  {
  }

  lemma {:induction false} ReadMnemonic(r: int, i: nat)
    requires 0 <= i <= r < REGISTERS
    ensures RegisterFrom(Mnemonic(r), i) == Some(r)
    decreases r - i
  {
    hide Mnemonic;
    if i < r {
      MnemonicsDiffer(i, r);
      ReadMnemonic(r, i + 1);
    }
  }

  lemma {:induction false} FindBehind(a: string, c: char, b: string)
    requires forall i :: 0 <= i < |a| ==> a[i] != c
    ensures Find(a, c) == |a| && Find(a + [c] + b, c) == |a|
  {
    var s := a + [c] + b;
    assert s[|a|] == c;
    assert forall i :: 0 <= i < |a| ==> s[i] == a[i];
  }

  lemma ReadText(it: Item)
    requires it.Valid()
    ensures ReadItem(it.Text()) == Some(it)
    ensures it.Text() != "" && forall i :: 0 <= i < |it.Text()| ==> it.Text()[i] != ','
  {
    hide Mnemonic, RegisterFrom, Find;
    match it
    case One(r) =>
      MnemonicShape(r);
      ReadMnemonic(r, 0);
      FindBehind(Mnemonic(r), '-', "");
    case Span(a, b) =>
      MnemonicShape(a);
      MnemonicShape(b);
      ReadMnemonic(a, 0);
      ReadMnemonic(b, 0);
      FindBehind(Mnemonic(a), '-', Mnemonic(b));
      assert it.Text()[..|Mnemonic(a)|] == Mnemonic(a) && it.Text()[|Mnemonic(a)| + 1..] == Mnemonic(b);
  }

  /** Reading gives back what was printed. */
  lemma {:induction false} ReadJoined(items: seq<Item>)
    requires AllValid(items)
    ensures Read(Joined(items)) == Some(items)
    ensures items != [] ==> Joined(items) != "" && ReadItems(Joined(items)) == Some(items)
  {
    hide Find, ReadItem;
    if items != [] {
      var t := items[0].Text();
      ReadText(items[0]);
      if |items| == 1 {
        FindBehind(t, ',', "");
        assert t[..|t|] == t && items == [items[0]];
      } else {
        ReadJoined(items[1..]);
        FindBehind(t, ',', Joined(items[1..]));
        assert Joined(items)[..|t|] == t && Joined(items)[|t| + 1..] == Joined(items[1..]);
      }
      assert items == [items[0]] + items[1..];
    }
  }

  lemma {:induction false} StreamIsJoined(items: seq<Item>)
    requires AllValid(items)
    ensures Stream(items) == if items == [] then "" else Joined(items) + ","
  {
    if |items| > 1 {
      StreamIsJoined(items[1..]);
    } else if |items| == 1 {
      assert items[1..] == [];
    }
  }

  lemma {:induction false} StreamConcat(a: seq<Item>, b: seq<Item>)
    requires AllValid(a) && AllValid(b)
    ensures AllValid(a + b) && Stream(a + b) == Stream(a) + Stream(b)
  {
    hide Mnemonic, Item.Text;
    if a == [] {
      assert a + b == b;
    } else {
      assert (a + b)[0] == a[0] && (a + b)[1..] == a[1..] + b;
      StreamConcat(a[1..], b);
    }
  }

  // ----- the runs of a mask --------------------------------------------------

  /** The number of set bits right below bit n. */
  function Open(word: nat, n: nat): (c: nat)
    ensures c <= n
    ensures forall r :: n - c <= r < n ==> Bit(word, r)
    ensures c < n ==> !Bit(word, n - c - 1)
  {
    if n == 0 || !Bit(word, n - 1) then 0 else Open(word, n - 1) + 1
  }

  /** How a run of c set bits from bit first on is printed. */
  function RunItems(first: int, c: nat): seq<Item> {
    if c == 0 then []
    else if c == 1 then [One(first)]
    else if c == 2 then [One(first), One(first + 1)]
    else [Span(first, first + c - 1)]
  }

  /** The items for all runs that end below bit n. */
  function Closed(word: nat, n: nat): seq<Item> {
    if n == 0 then []
    else if Bit(word, n - 1) then Closed(word, n - 1)
    else Closed(word, n - 1) + RunItems(n - 1 - Open(word, n - 1), Open(word, n - 1))
  }

  function Items(word: nat, n: nat): seq<Item> {
    Closed(word, n) + RunItems(n - Open(word, n), Open(word, n))
  }

  lemma RunItemsDenote(first: int, c: nat, r: int)
    ensures Denotes(RunItems(first, c), r) <==> first <= r < first + c
  {
    var items := RunItems(first, c);
    if first <= r < first + c {
      assert items[if c == 2 then r - first else 0].Names(r);
    }
  }

  lemma DenotesConcat(a: seq<Item>, b: seq<Item>, r: int)
    ensures Denotes(a + b, r) <==> Denotes(a, r) || Denotes(b, r)
  {
    if i :| 0 <= i < |a| && a[i].Names(r) {
      assert (a + b)[i].Names(r);
    }
    if i :| 0 <= i < |b| && b[i].Names(r) {
      assert (a + b)[|a| + i].Names(r);
    }
  }

  lemma {:induction false} ClosedDenotes(word: nat, n: nat, r: int)
    ensures Denotes(Closed(word, n), r) <==> 0 <= r < n - Open(word, n) && Bit(word, r)
  {
    if n != 0 {
      ClosedDenotes(word, n - 1, r);
      var c := Open(word, n - 1);
      if !Bit(word, n - 1) {
        DenotesConcat(Closed(word, n - 1), RunItems(n - 1 - c, c), r);
        RunItemsDenote(n - 1 - c, c, r);
      }
    }
  }

  /** The items name exactly the registers whose bits are set. */
  lemma ItemsDenote(word: nat, n: nat, r: int)
    ensures Denotes(Items(word, n), r) <==> 0 <= r < n && Bit(word, r)
  {
    ClosedDenotes(word, n, r);
    DenotesConcat(Closed(word, n), RunItems(n - Open(word, n), Open(word, n)), r);
    RunItemsDenote(n - Open(word, n), Open(word, n), r);
  }

  /** No item can be made longer: a span lies between clear bits (or the ends of the
      mask), and a single register has at most one neighbour in its run. */
  predicate Maximal(word: nat, n: nat, it: Item) {
    match it
    case One(r) =>
      && 0 <= r < n && Bit(word, r)
      && !(1 <= r < n - 1 && Bit(word, r - 1) && Bit(word, r + 1))
      && !(2 <= r && Bit(word, r - 1) && Bit(word, r - 2))
      && !(r < n - 2 && Bit(word, r + 1) && Bit(word, r + 2))
    case Span(a, b) =>
      && 0 <= a && a + 2 <= b < n
      && (forall r :: a <= r <= b ==> Bit(word, r))
      && (a == 0 || !Bit(word, a - 1)) && (b == n - 1 || !Bit(word, b + 1))
  }

  function First(it: Item): int {
    match it case One(r) => r case Span(a, _) => a
  }

  function Last(it: Item): int {
    match it case One(r) => r case Span(_, b) => b
  }

  predicate Ascending(items: seq<Item>) {
    forall i, j :: 0 <= i < j < |items| ==> Last(items[i]) < First(items[j])
  }

  /** All items lie below n, ascend, and are maximal in any mask that has no set bit at n. */
  ghost predicate GoodItems(word: nat, n: nat, m: nat, items: seq<Item>) {
    && Ascending(items)
    && forall i :: 0 <= i < |items| ==> Maximal(word, m, items[i]) && First(items[i]) <= Last(items[i]) < n
  }

  lemma RunIsMaximal(word: nat, first: nat, c: nat, m: nat)
    requires first + c <= m && (forall r :: first <= r < first + c ==> Bit(word, r))
    requires (first == 0 || !Bit(word, first - 1)) && (first + c == m || !Bit(word, first + c))
    ensures GoodItems(word, first + c, m, RunItems(first, c))
    ensures forall i :: 0 <= i < |RunItems(first, c)| ==> first <= First(RunItems(first, c)[i])
  {
    hide Bit;
  }

  /** The items of a later run go behind those of earlier ones. */
  lemma GoodThenRun(word: nat, m: nat, a: seq<Item>, first: nat, c: nat)
    requires GoodItems(word, first, m, a) && first + c <= m
    requires forall r :: first <= r < first + c ==> Bit(word, r)
    requires (first == 0 || !Bit(word, first - 1)) && (first + c == m || !Bit(word, first + c))
    ensures GoodItems(word, first + c, m, a + RunItems(first, c))
  {
    hide Bit, Maximal, RunItems;
    RunIsMaximal(word, first, c, m);
  }

  lemma {:induction false} ClosedIsGood(word: nat, n: nat, m: nat)
    requires n <= m
    ensures GoodItems(word, n - Open(word, n), m, Closed(word, n))
  {
    hide Bit, Maximal, RunItems, GoodItems;
    if n == 0 {
      NothingIsGood(word, m);
    } else {
      ClosedIsGood(word, n - 1, m);
      var c := Open(word, n - 1);
      if !Bit(word, n - 1) {
        GoodThenRun(word, m, Closed(word, n - 1), n - 1 - c, c);
        GoodBelow(word, n - 1, m, Closed(word, n));
      }
    }
  }

  lemma NothingIsGood(word: nat, m: nat)
    ensures GoodItems(word, 0, m, [])
  {
  }

  lemma GoodBelow(word: nat, n: nat, m: nat, items: seq<Item>)
    requires GoodItems(word, n, m, items)
    ensures GoodItems(word, n + 1, m, items)
  {
  }

  /** The items ascend, and each of them is as long as it can be. */
  lemma ItemsAreRuns(word: nat, n: nat)
    ensures GoodItems(word, n, n, Items(word, n))
  {
    hide Bit, Maximal, RunItems, GoodItems;
    ClosedIsGood(word, n, n);
    GoodThenRun(word, n, Closed(word, n), n - Open(word, n), Open(word, n));
  }

  // ----- printing ------------------------------------------------------------

  lemma RunItemsValid(first: nat, c: nat)
    requires first + c <= REGISTERS
    ensures AllValid(RunItems(first, c))
  {
  }

  lemma {:induction false} ClosedValid(word: nat, n: nat)
    requires n <= REGISTERS
    ensures AllValid(Closed(word, n)) && AllValid(Items(word, n))
  {
    if n != 0 {
      ClosedValid(word, n - 1);
      RunItemsValid(n - 1 - Open(word, n - 1), Open(word, n - 1));
    }
    RunItemsValid(n - Open(word, n), Open(word, n));
  }

  /** Prints a run of `count` registers from `start` on, which ends before register i. */
  method PrintRange(stream: string, count: nat, start: nat, i: nat) returns (r: string)
    requires start + count <= REGISTERS && (count > 2 ==> i == start + count)
    ensures AllValid(RunItems(start, count)) && r == stream + Stream(RunItems(start, count))
  {
    hide Mnemonic;
    RunItemsValid(start, count);
    r := stream;
    if count == 1 {
      r := r + Mnemonic(start) + ",";
    } else if count == 2 {
      r := r + Mnemonic(start) + "," + Mnemonic(start + 1) + ",";
      assert Stream([One(start), One(start + 1)][1..]) == Mnemonic(start + 1) + ",";
    } else if count > 2 {
      r := r + Mnemonic(start) + "-" + Mnemonic(i - 1) + ",";
    }
  }

  /** The registers of a mask, as text. */
  method GenerateRegisterList(instruction: nat, regCount: nat) returns (str: string)
    requires regCount <= REGISTERS
    ensures AllValid(Items(instruction, regCount)) && str == Joined(Items(instruction, regCount))
  {
    hide Mnemonic, Item.Text, Bit, Stream, Joined, RunItems, Items;
    var stream := "";
    var rangeCount, rangeStart := 0, 0;
    StreamOfNothing(instruction);
    for i := 0 to regCount
      invariant rangeCount == Open(instruction, i) && (rangeCount > 0 ==> rangeStart == i - rangeCount)
      invariant 0 <= rangeStart && rangeStart + rangeCount <= REGISTERS
      invariant AllValid(Closed(instruction, i)) && stream == Stream(Closed(instruction, i))
    {
      ClosedValid(instruction, i + 1);
      if Bit(instruction, i) {
        if rangeCount == 0 {
          rangeStart := i;
        }
        rangeCount := rangeCount + 1;
      } else {
        stream := PrintRange(stream, rangeCount, rangeStart, i);
        CloseRun(instruction, i, rangeStart, rangeCount);
        rangeCount := 0;
      }
    }
    stream := PrintRange(stream, rangeCount, rangeStart, regCount);
    ClosedValid(instruction, regCount);
    LastRun(instruction, regCount, rangeStart, rangeCount);
    StreamIsJoined(Items(instruction, regCount));
    NothingJoined(Items(instruction, regCount));
    str := stream;
    if str != "" && str[|str| - 1] == ',' {
      str := str[..|str| - 1];
    }
  }

  lemma StreamOfNothing(word: nat)
    ensures Closed(word, 0) == [] && Open(word, 0) == 0 && Stream([]) == ""
  {
  }

  lemma NothingJoined(items: seq<Item>)
    requires AllValid(items)
    ensures items == [] ==> Joined(items) == ""
  {
  }

  /** A run that ends at a clear bit goes to the closed ones. */
  lemma CloseRun(word: nat, i: nat, start: nat, c: nat)
    requires i < REGISTERS && !Bit(word, i) && c == Open(word, i) && (c > 0 ==> start == i - c)
    requires AllValid(Closed(word, i)) && AllValid(RunItems(start, c)) && AllValid(Closed(word, i + 1))
    ensures Open(word, i + 1) == 0
    ensures Stream(Closed(word, i + 1)) == Stream(Closed(word, i)) + Stream(RunItems(start, c))
  {
    hide Mnemonic, Item.Text, Bit, Stream, AllValid;
    assert RunItems(start, c) == RunItems(i - c, c);
    StreamConcat(Closed(word, i), RunItems(start, c));
  }

  lemma LastRun(word: nat, n: nat, start: nat, c: nat)
    requires n <= REGISTERS && c == Open(word, n) && (c > 0 ==> start == n - c)
    requires AllValid(Closed(word, n)) && AllValid(RunItems(start, c)) && AllValid(Items(word, n))
    ensures Stream(Items(word, n)) == Stream(Closed(word, n)) + Stream(RunItems(start, c))
  {
    hide Mnemonic, Item.Text, Bit, Stream, Closed, AllValid;
    assert RunItems(start, c) == RunItems(n - c, c);
    StreamConcat(Closed(word, n), RunItems(start, c));
  }

  /** Reading the printed list back names exactly the set bits below regCount. */
  lemma PrintedListDenotesMask(instruction: nat, regCount: nat)
    requires regCount <= REGISTERS
    ensures AllValid(Items(instruction, regCount))
    ensures var items := Read(Joined(Items(instruction, regCount)));
            items.Some? && forall r :: Denotes(items.value, r) <==> 0 <= r < regCount && Bit(instruction, r)
  {
    ClosedValid(instruction, regCount);
    ReadJoined(Items(instruction, regCount));
    forall r ensures Denotes(Items(instruction, regCount), r) <==> 0 <= r < regCount && Bit(instruction, r) {
      ItemsDenote(instruction, regCount, r);
    }
  }

  // ----- names and numbers ---------------------------------------------------

  function Decimal(n: nat): string {
    if n < 10 then ["0123456789"[n]] else Decimal(n / 10) + ["0123456789"[n % 10]]
  }

  /** The names say which register it is. */
  lemma NamesAreNumbers(r: nat)
    requires r < REGISTERS
    ensures r <= 12 ==> Mnemonic(r) == "r" + Decimal(r)
    ensures Mnemonic(13) == "sp" && Mnemonic(14) == "lr" && Mnemonic(15) == "pc"
    ensures Mnemonic(16) == "cpsr" && Mnemonic(17) == "spsr"
  {
    assert r < 10 ==> Decimal(r) == [Mnemonic(r)[1]];
    assert Decimal(1) == "1" && Decimal(10) == "1" + "0" && Decimal(11) == "1" + "1" && Decimal(12) == "1" + "2";
  }

  function Pow2(n: nat): (p: nat)
    ensures p > 0
  {
    if n == 0 then 1 else 2 * Pow2(n - 1)
  }

  lemma {:induction false} BitInNumbers(word: nat, i: nat)
    ensures Bit(word, i) <==> word / Pow2(i) % 2 == 1
  {
    if i > 0 {
      BitInNumbers(word / 2, i - 1);
      DivideTwice(word, Pow2(i - 1));
    }
  }

  lemma DivideTwice(a: nat, m: nat)
    requires m > 0
    ensures a / (2 * m) == a / 2 / m && a % (2 * m) == 2 * (a / 2 % m) + a % 2
  {
    var h := a / 2;
    var q, r := h / m, h % m;
    assert a == q * (2 * m) + (2 * r + a % 2);
    Divided(a, 2 * m, q, 2 * r + a % 2);
  }

  lemma Divided(a: nat, m: nat, q: nat, r: nat)
    requires a == q * m + r && r < m
    ensures a / m == q && a % m == r
  {
    var d := a / m - q;
    assert m * d == r - a % m;
    if d >= 1 {
      Grows(m, d);
    } else if d <= -1 {
      Grows(m, -d);
    }
  }

  lemma Grows(m: int, d: int)
    requires m >= 0 && d >= 1
    ensures m <= m * d && m * -d <= -m
  {
  }

  /** What the registers named below n are worth, register r being worth the r-th power of two. */
  function Worth(items: seq<Item>, n: nat): nat {
    if n == 0 then 0 else Worth(items, n - 1) + if Denotes(items, n - 1) then Pow2(n - 1) else 0
  }

  lemma {:induction false} BitIsWorth(word: nat, n: nat)
    ensures word % Pow2(n + 1) == word % Pow2(n) + if Bit(word, n) then Pow2(n) else 0
  {
    if n > 0 {
      BitIsWorth(word / 2, n - 1);
      DivideTwice(word, Pow2(n - 1));
      DivideTwice(word, Pow2(n));
    }
  }

  lemma {:induction false} WorthOfBits(items: seq<Item>, word: nat, n: nat)
    requires forall r :: 0 <= r < n ==> (Denotes(items, r) <==> Bit(word, r))
    ensures Worth(items, n) == word % Pow2(n)
  {
    if n > 0 {
      hide Bit, Denotes;
      WorthOfBits(items, word, n - 1);
      BitIsWorth(word, n - 1);
    }
  }

  /** The registers that are read back are worth the mask. */
  lemma PrintedListIsMask(instruction: nat, regCount: nat)
    requires regCount <= REGISTERS
    ensures AllValid(Items(instruction, regCount))
    ensures var items := Read(Joined(Items(instruction, regCount)));
            items.Some? && Worth(items.value, regCount) == instruction % Pow2(regCount)
  {
    hide Bit, Denotes, Joined, Read, Items;
    PrintedListDenotesMask(instruction, regCount);
    WorthOfBits(Read(Joined(Items(instruction, regCount))).value, instruction, regCount);
  }

  /** One mask, as it is printed. */
  lemma PrintedExample()
    ensures AllValid(Items(0xf3, 8)) && Joined(Items(0xf3, 8)) == "r0,r1,r4-r7"
  {
    hide Bit, Joined;
    ClosedValid(0xf3, 8);
    ExampleBits(0xf3);
    assert Open(0xf3, 2) == 2 && Open(0xf3, 4) == 0 && Open(0xf3, 8) == 4;
    assert Closed(0xf3, 2) == [] && Closed(0xf3, 3) == Closed(0xf3, 4) == [One(0), One(1)];
    assert Closed(0xf3, 6) == Closed(0xf3, 4) && Closed(0xf3, 8) == Closed(0xf3, 6);
    assert Items(0xf3, 8) == [One(0), One(1), Span(4, 7)];
    ExampleText();
  }

  lemma ExampleBits(word: nat)
    requires word == 0xf3
    ensures Bit(word, 0) && Bit(word, 1) && !Bit(word, 2) && !Bit(word, 3)
    ensures Bit(word, 4) && Bit(word, 5) && Bit(word, 6) && Bit(word, 7)
  {
  }

  lemma ExampleText()
    ensures Joined([One(0), One(1), Span(4, 7)]) == "r0,r1,r4-r7"
  {
  }

  /** The register list of a Thumb push or pop: the low registers, and lr or pc. */
  method PushPop(instr: nat) returns (op: string, regList: string)
    ensures op == if Bit(instr, 11) then "POP" else "PUSH"
    ensures var items := Read(regList);
            items.Some? && forall r :: Denotes(items.value, r) <==>
              (0 <= r < 8 && Bit(instr, r)) || (Bit(instr, 8) && r == if Bit(instr, 11) then 15 else 14)
  {
    hide Mnemonic, Item.Text, Bit, Read, Joined, Items, Denotes;
    var o := if Bit(instr, 11) then 1 else 0;
    regList := GenerateRegisterList(instr, 8);
    ghost var items := Items(instr, 8);
    JoinedSnoc(items, One(14 + o));
    OneText(14 + o);
    if Bit(instr, 8) {
      if regList != "" {
        regList := regList + ",";
      }
      regList := regList + Mnemonic(14 + o);
      items := items + [One(14 + o)];
    }
    assert regList == Joined(items);
    ReadJoined(items);
    PushPopDenotes(instr, 14 + o, items);
    op := if o == 1 then "POP" else "PUSH";
  }

  lemma OneText(r: int)
    requires 0 <= r < REGISTERS
    ensures One(r).Text() == Mnemonic(r)
  {
  }

  lemma PushPopDenotes(instr: nat, extra: int, items: seq<Item>)
    requires items == if Bit(instr, 8) then Items(instr, 8) + [One(extra)] else Items(instr, 8)
    ensures forall r :: Denotes(items, r) <==> (0 <= r < 8 && Bit(instr, r)) || (Bit(instr, 8) && r == extra)
  {
    hide Bit, Items, Denotes;
    forall r ensures Denotes(items, r) <==> (0 <= r < 8 && Bit(instr, r)) || (Bit(instr, 8) && r == extra) {
      ItemsDenote(instr, 8, r);
      DenotesConcat(Items(instr, 8), [One(extra)], r);
      RunItemsDenote(extra, 1, r);
    }
  }

  lemma {:induction false} JoinedSnoc(items: seq<Item>, it: Item)
    requires AllValid(items) && it.Valid()
    ensures AllValid(items + [it])
    ensures Joined(items + [it]) == if items == [] then it.Text() else Joined(items) + "," + it.Text()
    ensures Joined(items) == "" <==> items == []
  {
    hide Mnemonic, Item.Text;
    if items != [] {
      ReadText(items[0]);
      assert (items + [it])[0] == items[0] && (items + [it])[1..] == items[1..] + [it];
      JoinedSnoc(items[1..], it);
    }
  }
}
