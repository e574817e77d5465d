/** The greedy flag decoder panwrap_log_decoded_flags and the tables it is used with. */
module Flags {
  import opened HexText

  /** struct panwrap_flag_info */
  datatype Flag = Flag(bits: bv64, name: string)

  /** The test `(flags & flag) == flag`. */
  predicate Contains(flags: bv64, bits: bv64) {
    flags & bits == bits
  }

  /** The update `flags &= ~flag`. */
  function Clear(flags: bv64, bits: bv64): bv64 {
    flags & !bits
  }

  function Join(a: bv64, b: bv64): bv64 {
    a | b
  }

  predicate Apart(a: bv64, b: bv64) {
    a & b == 0
  }

  /** The bits left over after the whole table. */
  function Residual(table: seq<Flag>, flags: bv64): bv64
    decreases |table|
  {
    if table == [] then flags else
    var r, bits := Residual(table[..|table| - 1], flags), table[|table| - 1].bits;
    if Contains(r, bits) then Clear(r, bits) else r
  }

  /** The flags the decoder names, in table order. */
  function Matched(table: seq<Flag>, flags: bv64): seq<Flag>
    decreases |table|
  {
    if table == [] then [] else
    var front, f := table[..|table| - 1], table[|table| - 1];
    if Contains(Residual(front, flags), f.bits) then Matched(front, flags) + [f] else Matched(front, flags)
  }

  function LowBit(x: bv64): nat {
    if x & 1 == 1 then 1 else 0
  }

  function Half(x: bv64): bv64 {
    x >> 1
  }

  /** The number in the lowest `n` bits of a word. */
  function Value(x: bv64, n: nat): nat
    decreases n
  {
    if n == 0 then 0 else LowBit(x) + 2 * Value(Half(x), n - 1)
  }

  /** The number a word stands for. */
  function Number(x: bv64): nat {
    Value(x, 64)
  }

  /** "0x%lx" */
  function Hex(v: bv64): string {
    "0x" + HexLower(Number(v))
  }

  /** The names of the matched flags, the first after an opening parenthesis, the others after bars. */
  function Names(matched: seq<Flag>): string {
    if matched == [] then "" else
    var front := matched[..|matched| - 1];
    Names(front) + (if front == [] then " (" else " | ") + matched[|matched| - 1].name
  }

  /** The whole text for a value. */
  function Text(flags: bv64, matched: seq<Flag>, residual: bv64): string {
    if matched == [] then Hex(flags)
    else Hex(flags) + Names(matched) + (if residual != 0 then " | " + Hex(residual) else "") + ")"
  }

  lemma TextGrows(value: bv64, m: seq<Flag>, f: Flag)
    ensures Hex(value) + Names(m + [f]) == Hex(value) + Names(m) + (if m == [] then " (" else " | ") + f.name
  {
    hide Hex;
    assert (m + [f])[..|m|] == m;
  }

  /** panwrap_log_decoded_flags: one pass over the table that clears the bits it has named. */
  method LogDecodedFlags(table: seq<Flag>, value: bv64) returns (text: string)
    ensures text == Text(value, Matched(table, value), Residual(table, value))
  {
    hide Contains, Clear, Hex, Names;
    var flags := value;
    var decodableFlagsFound := false;
    text := Hex(flags);
    NoNames(text);
    for i := 0 to |table|
      invariant flags == Residual(table[..i], value)
      invariant decodableFlagsFound <==> Matched(table[..i], value) != []
      invariant text == Hex(value) + Names(Matched(table[..i], value))
    {
      assert table[..i + 1][..i] == table[..i];
      if !Contains(flags, table[i].bits) { continue; }
      ghost var matched := Matched(table[..i], value);
      TextGrows(value, matched, table[i]);
      assert Matched(table[..i + 1], value) == matched + [table[i]];
      if !decodableFlagsFound {
        decodableFlagsFound := true;
        text := text + " (";
      } else {
        text := text + " | ";
      }
      text := text + table[i].name;
      flags := Clear(flags, table[i].bits);
    }
    assert table[..|table|] == table;
    NoNames(Hex(value));
    if decodableFlagsFound {
      if flags != 0 { text := text + (" | " + Hex(flags)); }
      EmptyEnd(Hex(value) + Names(Matched(table, value)));
      text := text + ")";
    }
  }

  lemma NoNames(s: string)
    ensures s + Names([]) == s
  {
  }

  lemma EmptyEnd(s: string)
    ensures s + "" == s
  {
  }

  // Reading the text back.

  /** The text up to the next space or closing parenthesis. */
  function Token(s: string): (t: string)
    ensures |t| <= |s|
    ensures s != "" && s[0] != ' ' && s[0] != ')' ==> t != ""
  {
    if s == "" || s[0] == ' ' || s[0] == ')' then "" else [s[0]] + Token(s[1..])
  }

  /** The items with a space, a bar and a space between them, up to a parenthesis that ends the text. */
  function Items(s: string): seq<string>
    decreases |s|
  {
    var t := Token(s);
    if s[|t|..] == ")" then [t]
    else if " | " <= s[|t|..] then [t] + Items(s[|t| + 3..])
    else []
  }

  /** What a reader of the log makes of the text: the value, the names and the bits no name accounts for. */
  datatype Decoded = Decoded(value: nat, names: seq<string>, residual: nat)

  function ReadNumber(s: string): nat {
    if "0x" <= s then ReadHex(s[2..]) else 0
  }

  /** A last item that looks like a number is the residual. */
  function Split(v: string, items: seq<string>): Decoded
  {
    var n := |items| - 1;
    if n >= 0 && "0x" <= items[n] then Decoded(ReadNumber(v), items[..n], ReadNumber(items[n]))
    else Decoded(ReadNumber(v), items, 0)
  }

  function Parse(s: string): Decoded {
    var v := Token(s);
    if s == v then Decoded(ReadNumber(v), [], ReadNumber(v))
    else Split(v, if " (" <= s[|v|..] then Items(s[|v| + 2..]) else [])
  }

  /** Neither a space nor a parenthesis: part of one token. */
  predicate IsWord(s: string) {
    s != "" && forall i :: 0 <= i < |s| ==> s[i] != ' ' && s[i] != ')'
  }

  /** The flag names of the source are words that do not look like numbers. */
  predicate IsName(s: string) {
    IsWord(s) && !("0x" <= s)
  }

  function NamesOf(s: seq<Flag>): seq<string> {
    if s == [] then [] else NamesOf(s[..|s| - 1]) + [s[|s| - 1].name]
  }

  /** Items with bars between them. */
  function Joined(items: seq<string>): string
    requires items != []
  {
    var n := |items| - 1;
    if n == 0 then items[0] else Joined(items[..n]) + " | " + items[n]
  }

  lemma {:induction false} TokenStops(t: string, rest: string)
    requires forall i :: 0 <= i < |t| ==> t[i] != ' ' && t[i] != ')'
    requires rest == "" || rest[0] == ' ' || rest[0] == ')'
    ensures Token(t + rest) == t
    decreases |t|
  {
    if t == "" {
      assert t + rest == rest;
    } else {
      assert (t + rest)[1..] == t[1..] + rest;
      TokenStops(t[1..], rest);
    }
  }

  lemma ItemThenMore(t: string, rest: string)
    requires IsWord(t)
    ensures Items(t + " | " + rest) == [t] + Items(rest)
  {
    assert t + " | " + rest == t + (" | " + rest);
    TokenStops(t, " | " + rest);
    assert (t + " | " + rest)[|t| + 3..] == rest;
    assert (t + " | " + rest)[|t|..] == " | " + rest;
    assert (" | " + rest)[..3] == " | ";
  }

  lemma LastItem(t: string)
    requires IsWord(t)
    ensures Items(t + ")") == [t]
  {
    TokenStops(t, ")");
    assert (t + ")")[|t|..] == ")";
  }

  lemma Regroup(a: string, b: string, c: string, d: string, e: string)
    ensures a + b + c + d + e == a + b + (c + d + e)
  {
  }

  lemma FrontAndLast(items: seq<string>)
    requires items != []
    ensures items[..|items| - 1] + [items[|items| - 1]] == items
  {
  }

  lemma {:induction false} ItemsThenMore(items: seq<string>, rest: string)
    requires items != [] && forall i :: 0 <= i < |items| ==> IsWord(items[i])
    ensures Items(Joined(items) + " | " + rest) == items + Items(rest)
    decreases |items|
  {
    hide Items, IsWord;
    var n := |items| - 1;
    var front, last := items[..n], items[n];
    FrontAndLast(items);
    ItemThenMore(last, rest);
    if n > 0 {
      ItemsThenMore(front, last + " | " + rest);
      Regroup(Joined(front), " | ", last, " | ", rest);
      Rejoin(front, last, Items(rest));
    }
  }

  lemma Rejoin(front: seq<string>, last: string, more: seq<string>)
    ensures front + ([last] + more) == front + [last] + more
  {
  }

  /** Reading joined items gives back the items. */
  lemma ItemsRead(items: seq<string>)
    requires items != [] && forall i :: 0 <= i < |items| ==> IsWord(items[i])
    ensures Items(Joined(items) + ")") == items
  {
    hide Items, IsWord;
    var n := |items| - 1;
    var front, last := items[..n], items[n];
    FrontAndLast(items);
    LastItem(last);
    if n > 0 {
      ItemsThenMore(front, last + ")");
      Close(Joined(front), " | ", last, ")");
    }
  }

  lemma Close(a: string, b: string, c: string, d: string)
    ensures a + b + c + d == a + b + (c + d)
  {
  }

  lemma JoinedSnoc(items: seq<string>, item: string)
    ensures items == [] ==> Joined(items + [item]) == item
    ensures items != [] ==> Joined(items + [item]) == Joined(items) + " | " + item
  {
    assert (items + [item])[..|items|] == items;
  }

  lemma {:induction false} NamesJoin(m: seq<Flag>)
    requires m != []
    ensures |NamesOf(m)| == |m| && Names(m) == " (" + Joined(NamesOf(m))
    decreases |m|
  {
    hide Joined;
    var front, name := m[..|m| - 1], m[|m| - 1].name;
    JoinedSnoc(NamesOf(front), name);
    if front == [] {
      assert "" + " (" == " (";
    } else {
      NamesJoin(front);
      Close(" (", Joined(NamesOf(front)), " | ", name);
      Regroup("", " (", Joined(NamesOf(front)), " | ", name);
    }
  }

  lemma {:induction false} NamesAreNames(m: seq<Flag>)
    requires forall i :: 0 <= i < |m| ==> IsName(m[i].name)
    ensures |NamesOf(m)| == |m| && forall i :: 0 <= i < |m| ==> IsName(NamesOf(m)[i])
    decreases |m|
  {
    hide IsName;
    if m != [] { NamesAreNames(m[..|m| - 1]); }
  }

  lemma HexIsNumber(v: bv64)
    ensures IsWord(Hex(v)) && "0x" <= Hex(v) && ReadNumber(Hex(v)) == Number(v)
  {
    hide Number;
    var h := HexLower(Number(v));
    HexLowerReads(Number(v));
    assert Hex(v)[2..] == h && Hex(v)[..2] == "0x";
    forall i | 0 <= i < |Hex(v)| ensures Hex(v)[i] != ' ' && Hex(v)[i] != ')' {
      if i >= 2 { assert Hex(v)[i] == h[i - 2] && DigitValue(h[i - 2]) < 16; }
    }
  }

  lemma {:induction false} ZeroIsZero(n: nat)
    ensures Value(0, n) == 0
    decreases n
  {
    if n > 0 {
      HalfOfZero();
      ZeroIsZero(n - 1);
    }
  }

  lemma HalfOfZero()
    ensures Half(0) == 0 && LowBit(0) == 0
  {
  }

  lemma {:induction false} NothingMatched(table: seq<Flag>, flags: bv64)
    requires Matched(table, flags) == []
    ensures Residual(table, flags) == flags
    decreases |table|
  {
    hide Contains, Clear;
    if table != [] { NothingMatched(table[..|table| - 1], flags); }
  }

  lemma {:induction false} MatchedNames(table: seq<Flag>, flags: bv64)
    requires forall i :: 0 <= i < |table| ==> IsName(table[i].name)
    ensures forall i :: 0 <= i < |Matched(table, flags)| ==> IsName(Matched(table, flags)[i].name)
    decreases |table|
  {
    hide Contains, Clear, IsName;
    if table != [] { MatchedNames(table[..|table| - 1], flags); }
  }

  /** The items between the parentheses. */
  function ItemsOf(m: seq<Flag>, r: bv64): seq<string> {
    NamesOf(m) + if r != 0 then [Hex(r)] else []
  }

  lemma TextIsItems(flags: bv64, m: seq<Flag>, r: bv64)
    requires m != []
    ensures ItemsOf(m, r) != [] && Text(flags, m, r) == Hex(flags) + (" (" + (Joined(ItemsOf(m, r)) + ")"))
  {
    hide Hex, Names, NamesOf;
    NamesJoin(m);
    var names := NamesOf(m);
    if r != 0 {
      assert ItemsOf(m, r)[..|names|] == names;
      assert Joined(ItemsOf(m, r)) == Joined(names) + " | " + Hex(r);
    } else {
      assert ItemsOf(m, r) == names;
      EmptyEnd(Hex(flags) + Names(m));
    }
  }

  lemma ParseSplits(s: string, items: seq<string>)
    requires " (" <= s[|Token(s)|..] && Items(s[|Token(s)| + 2..]) == items
    ensures Parse(s) == Split(Token(s), items)
  {
    hide Items, Token, Split, ReadNumber;
  }

  lemma ItemsParse(flags: bv64, items: seq<string>)
    requires items != [] && forall i :: 0 <= i < |items| ==> IsWord(items[i])
    ensures Parse(Hex(flags) + (" (" + (Joined(items) + ")"))) == Split(Hex(flags), items)
  {
    hide Hex, Items, Joined, Token, ReadNumber, Parse, Split, Number;
    var v, opening, body := Hex(flags), " (", Joined(items) + ")";
    HexIsNumber(flags);
    TokenStops(v, opening + body);
    hide IsWord;
    var s := v + (opening + body);
    assert s[|v|..] == opening + body && (opening + body)[..2] == opening;
    assert s[|v| + 2..] == body;
    ItemsRead(items);
    ParseSplits(s, items);
  }

  lemma SplitNames(flags: bv64, names: seq<string>)
    requires names != [] && forall i :: 0 <= i < |names| ==> IsName(names[i])
    ensures Split(Hex(flags), names) == Decoded(Number(flags), names, Number(0))
  {
    hide Hex, Number, ReadNumber;
    HexIsNumber(flags);
    ZeroNumber();
  }

  lemma SplitResidual(flags: bv64, names: seq<string>, r: bv64)
    ensures Split(Hex(flags), names + [Hex(r)]) == Decoded(Number(flags), names, Number(r))
  {
    hide Hex, Number, ReadNumber;
    HexIsNumber(flags);
    HexIsNumber(r);
    assert (names + [Hex(r)])[..|names|] == names;
  }

  /** Parsing the printed characters gives back the value, the named flags and the residual. */
  lemma TextReadsBack(table: seq<Flag>, flags: bv64)
    requires forall i :: 0 <= i < |table| ==> IsName(table[i].name)
    ensures var m, r := Matched(table, flags), Residual(table, flags);
            Parse(Text(flags, m, r)) == Decoded(Number(flags), NamesOf(m), Number(r))
  {
    hide Contains, Clear, Hex, Parse, Names, NamesOf, Number, Matched, Residual, Split, Text, Joined;
    var m, r := Matched(table, flags), Residual(table, flags);
    if m == [] {
      NothingMatched(table, flags);
      BareNumberParses(flags);
      NoFlagsText(flags);
    } else {
      TextIsItems(flags, m, r);
      MatchedNames(table, flags);
      NamesAreNames(m);
      HexIsNumber(r);
      ItemsParse(flags, ItemsOf(m, r));
      if r != 0 {
        SplitResidual(flags, NamesOf(m), r);
      } else {
        EmptyItems(NamesOf(m));
        SplitNames(flags, NamesOf(m));
      }
    }
  }

  lemma EmptyItems(items: seq<string>)
    ensures items + [] == items
  {
  }

  lemma NoFlagsText(flags: bv64)
    ensures Text(flags, [], flags) == Hex(flags)
  {
  }

  lemma ZeroNumber()
    ensures Number(0) == 0
  {
    ZeroIsZero(64);
  }

  lemma BareNumberParses(flags: bv64)
    ensures Parse(Hex(flags)) == Decoded(Number(flags), NamesOf([]), Number(flags))
  {
    hide Hex, Number, ReadNumber;
    HexIsNumber(flags);
    assert Hex(flags) + "" == Hex(flags);
    TokenStops(Hex(flags), "");
  }

  /** All bits of a list of flags. */
  function Union(s: seq<Flag>): bv64 {
    if s == [] then 0 else Join(Union(s[..|s| - 1]), s[|s| - 1].bits)
  }

  ghost predicate BitDisjoint(s: seq<Flag>) {
    forall i, j :: 0 <= i < j < |s| ==> Apart(s[i].bits, s[j].bits)
  }

  function Sum(s: seq<Flag>): nat {
    if s == [] then 0 else Sum(s[..|s| - 1]) + Number(s[|s| - 1].bits)
  }

  // Facts about single words.

  lemma ZeroFacts(x: bv64)
    ensures Apart(0, x) && Join(0, x) == x && Clear(x, 0) == x
  {
  }

  lemma HalvesApart(a: bv64, b: bv64)
    requires Apart(a, b)
    ensures Apart(Half(a), Half(b))
  {
  }

  lemma HalvesJoin(a: bv64, b: bv64)
    ensures Half(Join(a, b)) == Join(Half(a), Half(b))
  {
  }

  lemma LowBitsAdd(a: bv64, b: bv64)
    requires Apart(a, b)
    ensures LowBit(Join(a, b)) == LowBit(a) + LowBit(b)
  {
  }

  lemma ClearApart(r: bv64, bits: bv64)
    ensures Apart(bits, Clear(r, bits))
  {
  }

  lemma ClearJoins(r: bv64, bits: bv64)
    requires Contains(r, bits)
    ensures Join(bits, Clear(r, bits)) == r
  {
  }

  lemma ContainedApart(u: bv64, r: bv64, bits: bv64)
    requires Apart(u, r) && Contains(r, bits)
    ensures Apart(u, bits)
  {
  }

  lemma ClearedApart(u: bv64, r: bv64, bits: bv64)
    requires Apart(u, r)
    ensures Apart(Join(u, bits), Clear(r, bits))
  {
  }

  lemma JoinAssociates(u: bv64, a: bv64, b: bv64)
    ensures Join(Join(u, a), b) == Join(u, Join(a, b))
  {
  }

  lemma JoinApart(a: bv64, b: bv64, c: bv64)
    requires Apart(Join(a, b), c)
    ensures Apart(a, c) && Apart(b, c)
  {
  }

  lemma ClearElsewhere(r: bv64, a: bv64, b: bv64)
    requires Apart(a, b)
    ensures Contains(Clear(r, a), b) <==> Contains(r, b)
  {
    MaskedClear(r, a, b);
  }

  lemma MaskedClear(r: bv64, a: bv64, b: bv64)
    requires a & b == 0
    ensures (r & !a) & b == r & b
  {
  }

  lemma ClearTwice(x: bv64, a: bv64, b: bv64)
    ensures Clear(Clear(x, a), b) == Clear(x, Join(a, b))
  {
  }

  /** Words without a bit in common add up without carries. */
  lemma {:induction false} ApartAdds(a: bv64, b: bv64, n: nat)
    requires Apart(a, b)
    ensures Value(Join(a, b), n) == Value(a, n) + Value(b, n)
    decreases n
  {
    hide Apart, Join, Half, LowBit;
    if n > 0 {
      HalvesApart(a, b);
      HalvesJoin(a, b);
      LowBitsAdd(a, b);
      ApartAdds(Half(a), Half(b), n - 1);
    }
  }

  lemma NumbersAdd(a: bv64, b: bv64)
    requires Apart(a, b)
    ensures Number(Join(a, b)) == Number(a) + Number(b)
  {
    hide Apart, Join;
    ApartAdds(a, b, 64);
  }

  lemma {:induction false} UnionApart(s: seq<Flag>, bits: bv64)
    requires Apart(Union(s), bits)
    ensures forall i :: 0 <= i < |s| ==> Apart(s[i].bits, bits)
    decreases |s|
  {
    hide Apart, Join;
    if s != [] {
      JoinApart(Union(s[..|s| - 1]), s[|s| - 1].bits, bits);
      UnionApart(s[..|s| - 1], bits);
    }
  }

  lemma Snoc(m: seq<Flag>, f: Flag)
    ensures Union(m + [f]) == Join(Union(m), f.bits)
    ensures Sum(m + [f]) == Sum(m) + Number(f.bits)
  {
    hide Join, Number;
    assert (m + [f])[..|m|] == m;
  }

  lemma DisjointSnoc(m: seq<Flag>, f: Flag)
    requires BitDisjoint(m) && forall i :: 0 <= i < |m| ==> Apart(m[i].bits, f.bits)
    ensures BitDisjoint(m + [f])
  {
    hide Apart;
  }

  lemma {:induction false} Shared(table: seq<Flag>, flags: bv64)
    ensures var m, r := Matched(table, flags), Residual(table, flags);
            BitDisjoint(m) && Apart(Union(m), r) && Join(Union(m), r) == flags && Sum(m) + Number(r) == Number(flags)
    decreases |table|
  {
    hide Contains, Clear, Join, Apart, Number;
    if table == [] {
      ZeroFacts(flags);
      assert Union([]) == 0 && Sum([]) == 0;
    } else {
      var front, f := table[..|table| - 1], table[|table| - 1];
      Shared(front, flags);
      var m, r := Matched(front, flags), Residual(front, flags);
      if Contains(r, f.bits) {
        var u, r' := Union(m), Clear(r, f.bits);
        Snoc(m, f);
        ContainedApart(u, r, f.bits);
        UnionApart(m, f.bits);
        DisjointSnoc(m, f);
        ClearedApart(u, r, f.bits);
        ClearJoins(r, f.bits);
        JoinAssociates(u, f.bits, r');
        ClearApart(r, f.bits);
        NumbersAdd(f.bits, r');
        assert Matched(table, flags) == m + [f] && Residual(table, flags) == r';
      }
    }
  }

  /**
   * For every table and every value: the named flags and the residual have no bit in common with
   * one another, and together they are the value, as bits and as a sum of numbers.
   */
  lemma Conservation(table: seq<Flag>, flags: bv64)
    ensures var m, r := Matched(table, flags), Residual(table, flags);
            && BitDisjoint(m)
            && (forall i :: 0 <= i < |m| ==> Apart(m[i].bits, r))
            && Join(Union(m), r) == flags
            && Sum(m) + Number(r) == Number(flags)
  {
    hide Contains, Clear, Join, Apart, Number;
    Shared(table, flags);
    UnionApart(Matched(table, flags), Residual(table, flags));
  }

  /** Flags apart from a whole table are not affected by it. */
  lemma {:induction false} ResidualElsewhere(table: seq<Flag>, flags: bv64, bits: bv64)
    requires forall i :: 0 <= i < |table| ==> Apart(table[i].bits, bits)
    ensures Contains(Residual(table, flags), bits) <==> Contains(flags, bits)
    decreases |table|
  {
    hide Contains, Clear, Apart;
    if table != [] {
      ResidualElsewhere(table[..|table| - 1], flags, bits);
      ClearElsewhere(Residual(table[..|table| - 1], flags), table[|table| - 1].bits, bits);
    }
  }

  /**
   * When the flags of a table have no bit in common, exactly those contained in the value are
   * named, so the order of the table does not matter.
   */
  lemma {:induction false} DisjointTableMatchesExactly(table: seq<Flag>, flags: bv64)
    requires BitDisjoint(table)
    ensures forall f :: f in Matched(table, flags) <==> f in table && Contains(flags, f.bits)
    decreases |table|
  {
    hide Contains, Clear, Apart;
    if table != [] {
      var front, f := table[..|table| - 1], table[|table| - 1];
      assert table == front + [f];
      assert forall i :: 0 <= i < |front| ==> Apart(table[i].bits, table[|front|].bits);
      DisjointTableMatchesExactly(front, flags);
      ResidualElsewhere(front, flags, f.bits);
    }
  }

  lemma ContainsBoth(x: bv64, a: bv64, b: bv64)
    requires Contains(x, a) && Contains(x, b)
    ensures Contains(x, Join(a, b))
  {
  }

  lemma ContainsLeft(x: bv64, a: bv64, b: bv64)
    requires Contains(x, Join(a, b))
    ensures Contains(x, a)
  {
  }

  lemma ContainsRight(x: bv64, a: bv64, b: bv64)
    requires Contains(x, Join(a, b))
    ensures Contains(x, b)
  {
  }

  lemma ContainsJoin(x: bv64, a: bv64, b: bv64)
    ensures Contains(x, Join(a, b)) <==> Contains(x, a) && Contains(x, b)
  {
    hide Contains, Join;
    if Contains(x, Join(a, b)) {
      ContainsLeft(x, a, b);
      ContainsRight(x, a, b);
    } else if Contains(x, a) && Contains(x, b) {
      ContainsBoth(x, a, b);
    }
  }

  lemma ContainsEachOther(a: bv64, b: bv64)
    requires Contains(a, b) && Contains(b, a)
    ensures a == b
  {
  }

  lemma ContainsTrivially(x: bv64)
    ensures Contains(x, 0) && Contains(x, x)
  {
  }

  /** The union of flags is contained wherever each of them is. */
  lemma {:induction false} UnionContained(s: seq<Flag>, x: bv64)
    ensures Contains(x, Union(s)) <==> forall i :: 0 <= i < |s| ==> Contains(x, s[i].bits)
    decreases |s|
  {
    hide Contains, Join;
    if s == [] {
      ContainsTrivially(x);
    } else {
      UnionContained(s[..|s| - 1], x);
      ContainsJoin(x, Union(s[..|s| - 1]), s[|s| - 1].bits);
    }
  }

  lemma SameUnion(s: seq<Flag>, t: seq<Flag>)
    requires forall f :: f in s <==> f in t
    ensures Union(s) == Union(t)
  {
    hide Contains, Union;
    var u, v := Union(s), Union(t);
    ContainsTrivially(u);
    ContainsTrivially(v);
    UnionContained(s, u);
    UnionContained(t, u);
    UnionContained(s, v);
    UnionContained(t, v);
    assert forall i :: 0 <= i < |t| ==> t[i] in s;
    assert forall i :: 0 <= i < |s| ==> s[i] in t;
    ContainsEachOther(u, v);
  }

  lemma ClearsTo(u: bv64, r: bv64)
    requires Apart(u, r)
    ensures Clear(Join(u, r), u) == r
  {
  }

  /** The order of a bit-disjoint table changes neither what is named nor what is left. */
  lemma OrderDoesNotMatter(table: seq<Flag>, other: seq<Flag>, flags: bv64)
    requires BitDisjoint(table) && BitDisjoint(other) && forall f :: f in table <==> f in other
    ensures forall f :: f in Matched(table, flags) <==> f in Matched(other, flags)
    ensures Residual(table, flags) == Residual(other, flags)
  {
    hide Contains, Clear, Apart, Join, Union, Matched, Residual, BitDisjoint, Number, Sum;
    DisjointTableMatchesExactly(table, flags);
    DisjointTableMatchesExactly(other, flags);
    var m, n := Matched(table, flags), Matched(other, flags);
    SameUnion(m, n);
    Shared(table, flags);
    Shared(other, flags);
    ClearsTo(Union(m), Residual(table, flags));
    ClearsTo(Union(n), Residual(other, flags));
  }

  /** At most one bit is set. */
  predicate OneBit(bits: bv64) {
    bits & (bits - 1) == 0
  }

  lemma OneBitAllOrNothing(r: bv64, bits: bv64)
    requires OneBit(bits)
    ensures Contains(r, bits) || Apart(r, bits)
  {
  }

  lemma ClearNothing(r: bv64, bits: bv64)
    requires Apart(r, bits)
    ensures Clear(r, bits) == r
  {
  }

  /** Over a table of single bits, the residual is the value without the table's bits. */
  lemma {:induction false} OneBitResidual(table: seq<Flag>, flags: bv64)
    requires forall i :: 0 <= i < |table| ==> OneBit(table[i].bits)
    ensures Residual(table, flags) == Clear(flags, Union(table))
    decreases |table|
  {
    hide Contains, Clear, Join, Apart, OneBit;
    if table == [] {
      ZeroFacts(flags);
    } else {
      var front, bits := table[..|table| - 1], table[|table| - 1].bits;
      OneBitResidual(front, flags);
      var r := Residual(front, flags);
      OneBitAllOrNothing(r, bits);
      if !Contains(r, bits) { ClearNothing(r, bits); }
      ClearTwice(flags, Union(front), bits);
    }
  }

  lemma {:induction false} UnionConcat(s: seq<Flag>, t: seq<Flag>)
    ensures Union(s + t) == Join(Union(s), Union(t))
    decreases |t|
  {
    hide Join;
    if t == [] {
      assert s + t == s;
      JoinZero(Union(s));
    } else {
      var front, last := t[..|t| - 1], t[|t| - 1];
      UnionConcat(s, front);
      assert (s + t)[..|s + t| - 1] == s + front;
      JoinAssociates(Union(s), Union(front), last.bits);
    }
  }

  lemma JoinZero(x: bv64)
    ensures Join(x, 0) == x
  {
  }

  lemma UnionOfFour(s: seq<Flag>)
    requires |s| == 4
    ensures Union(s) == Join(Join(Join(s[0].bits, s[1].bits), s[2].bits), s[3].bits)
  {
    hide Join;
    assert s[..3][..2] == s[..2] && s[..2][..1] == s[..1] && s[..1][..0] == [];
    ZeroFacts(s[0].bits);
    assert Union(s[..1]) == s[0].bits;
    assert Union(s[..2]) == Join(s[0].bits, s[1].bits);
    assert Union(s[..3]) == Join(Union(s[..2]), s[2].bits);
  }

  /** jd_req_flag_info, in table order, four entries at a time. */
  const JD_REQ_0: seq<Flag> := [Flag(0x1, "FS"), Flag(0x2, "CS"), Flag(0x4, "T"), Flag(0x8, "CF")]
  const JD_REQ_1: seq<Flag> := [
    Flag(0x10, "V"), Flag(0x2000, "FS_AFBC"), Flag(0x20, "EVENT_COALESCE"), Flag(0x40, "COHERENT_GROUP")]
  const JD_REQ_2: seq<Flag> := [
    Flag(0x80, "PERMON"), Flag(0x100, "EXTERNAL_RESOURCES"), Flag(0x400, "ONLY_COMPUTE"),
    Flag(0x800, "SPECIFIC_COHERENT_GROUP")]
  const JD_REQ_3: seq<Flag> := [
    Flag(0x1000, "EVENT_ONLY_ON_FAILURE"), Flag(0x4000, "EVENT_NEVER"), Flag(0x8000, "SKIP_CACHE_START"),
    Flag(0x1_0000, "SKIP_CACHE_END")]
  const JD_REQ_FLAGS: seq<Flag> := JD_REQ_0 + JD_REQ_1 + (JD_REQ_2 + JD_REQ_3)

  /** MALI_JD_REQ_SOFT_JOB, the one bit below 17 without an entry in the table. */
  const SOFT_JOB: bv64 := 0x200

  lemma JdReqUnion()
    ensures Union(JD_REQ_FLAGS) == 0x1_FDFF
  {
    UnionOfFour(JD_REQ_0);
    UnionOfFour(JD_REQ_1);
    UnionOfFour(JD_REQ_2);
    UnionOfFour(JD_REQ_3);
    UnionConcat(JD_REQ_0, JD_REQ_1);
    UnionConcat(JD_REQ_2, JD_REQ_3);
    UnionConcat(JD_REQ_0 + JD_REQ_1, JD_REQ_2 + JD_REQ_3);
  }

  lemma JdReqOneBit()
    ensures forall i :: 0 <= i < |JD_REQ_FLAGS| ==> OneBit(JD_REQ_FLAGS[i].bits)
  {
    assert forall i :: 0 <= i < 4 ==> OneBit(JD_REQ_0[i].bits);
    assert forall i :: 0 <= i < 4 ==> OneBit(JD_REQ_1[i].bits);
    assert forall i :: 0 <= i < 4 ==> OneBit(JD_REQ_2[i].bits);
    assert forall i :: 0 <= i < 4 ==> OneBit(JD_REQ_3[i].bits);
  }

  /** A name that begins with a letter is not taken for a number. */
  lemma LettersAreNames(s: string)
    requires IsWord(s) && s[0] != '0'
    ensures IsName(s)
  {
  }

  lemma FourNames(s: seq<Flag>)
    requires |s| == 4 && forall i :: 0 <= i < 4 ==> IsWord(s[i].name) && s[i].name[0] != '0'
    ensures forall i :: 0 <= i < |s| ==> IsName(s[i].name)
  {
    forall i | 0 <= i < |s| ensures IsName(s[i].name) { LettersAreNames(s[i].name); }
  }

  lemma JdReqNames0()
    ensures forall i :: 0 <= i < |JD_REQ_0| ==> IsName(JD_REQ_0[i].name)
  {
    FourNames(JD_REQ_0);
  }

  lemma JdReqNames1()
    ensures forall i :: 0 <= i < |JD_REQ_1| ==> IsName(JD_REQ_1[i].name)
  {
    FourNames(JD_REQ_1);
  }

  lemma JdReqNames2()
    ensures forall i :: 0 <= i < |JD_REQ_2| ==> IsName(JD_REQ_2[i].name)
  {
    FourNames(JD_REQ_2);
  }

  lemma JdReqNames3()
    ensures forall i :: 0 <= i < |JD_REQ_3| ==> IsName(JD_REQ_3[i].name)
  {
    FourNames(JD_REQ_3);
  }

  /** The names of the table are words that read back. */
  lemma JdReqNames()
    ensures forall i :: 0 <= i < |JD_REQ_FLAGS| ==> IsName(JD_REQ_FLAGS[i].name)
  {
    hide IsName;
    JdReqNames0();
    JdReqNames1();
    JdReqNames2();
    JdReqNames3();
  }

  lemma NonSoftResidual(req: bv64)
    requires req & SOFT_JOB == 0
    ensures Clear(req, 0x1_FDFF) == req & !0x1_FFFF
  {
  }

  /** ioctl_log_decoded_jd_core_req: for every req that is not a soft job, what is left is the bits from 17 up. */
  lemma JdReqResidual(req: bv64)
    requires req & SOFT_JOB == 0
    ensures Residual(JD_REQ_FLAGS, req) == req & !0x1_FFFF
  {
    hide Clear, OneBit;
    JdReqUnion();
    JdReqOneBit();
    OneBitResidual(JD_REQ_FLAGS, req);
    NonSoftResidual(req);
  }
}
