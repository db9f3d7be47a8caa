/** The Polybius square cipher of A2/polybius.c. */
module Polybius {
  import opened Sequences

  const WIDTH := 5
  const ALPHABET := "ABCDEFGHIKLMNOPQRSTUVWXYZ"
  const NUL := '\0'

  datatype TextType = WithBlank | NoBlank

  // ----- characters -----

  function ToUpper(c: char): char {
    if 'a' <= c <= 'z' then (c as int - 32) as char else c
  }

  function ToLower(c: char): char {
    if 'A' <= c <= 'Z' then (c as int + 32) as char else c
  }

  predicate IsDigit(c: char) {
    '0' <= c <= '9'
  }

  function Digit(n: nat): (c: char)
    requires n < 10
    ensures IsDigit(c) && c as int - '0' as int == n
  {
    ('0' as int + n) as char
  }

  // ----- the table -----

  /** The 25 letters, each once. */
  ghost predicate IsTable(table: seq<char>) {
    |table| == 25 && Distinct(table) && Elems(table) == Elems(ALPHABET)
  }

  /** What randomInt(0, 25) yields. */
  type Draw = r: nat | r < 25

  /** The table that a stream of random numbers produces: the letters in the order in which they are first drawn. */
  function Drawn(draws: seq<Draw>): (table: seq<char>)
    ensures |table| == |FirstOccurrences(draws)|
  {
    var order := FirstOccurrences(draws);
    seq(|order|, k requires 0 <= k < |order| => ALPHABET[order[k]])
  }

  lemma LettersDistinct()
    ensures |ALPHABET| == 25 && Distinct(ALPHABET)
    ensures forall c :: c in ALPHABET <==> 'A' <= c <= 'Z' && c != 'J'
  {
    forall i, j | 0 <= i < j < 25 ensures ALPHABET[i] != ALPHABET[j] {
      LetterAt(i);
      LetterAt(j);
    }
    forall c ensures c in ALPHABET <==> 'A' <= c <= 'Z' && c != 'J' {
      if 'A' <= c <= 'Z' && c != 'J' {
        var k := c as int - 65 - if c > 'J' then 1 else 0;
        LetterAt(k);
        assert ALPHABET[k] == c;
      }
    }
  }

  lemma LetterAt(k: nat)
    requires k < 25
    ensures ALPHABET[k] as int == 65 + k + if k < 9 then 0 else 1
  {
  }

  /** A letter drawn for the first time stands in the table behind the different letters drawn before it; the numbers
      count the letters from A, without J. */
  lemma DrawnAt(draws: seq<Draw>, i: nat)
    requires i < |draws| && draws[i] !in draws[..i]
    ensures |Elems(draws[..i])| < |Drawn(draws)|
    ensures Drawn(draws)[|Elems(draws[..i])|] as int == 'A' as int + draws[i] + if draws[i] < 9 then 0 else 1
  {
    FirstOccurrence(draws, i);
    LetterAt(draws[i]);
  }

  /** If the letters drawn fill the table, it holds the 25 letters, each once. */
  lemma DrawnIsTable(draws: seq<Draw>)
    requires |FirstOccurrences(draws)| == 25
    ensures IsTable(Drawn(draws))
  {
    LettersDistinct();
    var order, table := FirstOccurrences(draws), Drawn(draws);
    AllDrawn(order);
    forall c ensures c in table <==> c in ALPHABET {
      if c in ALPHABET {
        var r: Draw :| ALPHABET[r] == c;
        assert r in order;
        var k :| 0 <= k < 25 && order[k] == r;
        assert table[k] == c;
      }
    }
    assert forall c :: c in Elems(table) <==> c in Elems(ALPHABET);
  }

  ghost function Below(n: nat): (s: set<Draw>)
    requires n <= 25
    ensures forall x: Draw :: x in s <==> x < n
    ensures |s| == n
  {
    if n == 0 then {} else Below(n - 1) + {n - 1}
  }

  ghost function All(): (s: set<Draw>)
    ensures forall x: Draw :: x in s
    ensures |s| == 25
  {
    Below(25)
  }

  lemma AllDrawn(order: seq<Draw>)
    requires |order| == 25 && Distinct(order)
    ensures forall r: Draw :: r in order
  {
    DistinctCardinality(order);
    forall r: Draw ensures r in order {
      SubsetCardinality(Elems(order) + {r}, All());
    }
  }

  /** More draws only add letters at the end. */
  lemma {:induction false} MoreDraws(draws: seq<Draw>, m: nat)
    requires m <= |draws|
    ensures FirstOccurrences(draws[..m]) <= FirstOccurrences(draws)
  {
    if m == |draws| {
      assert draws[..m] == draws;
    } else {
      assert draws[..|draws| - 1][..m] == draws[..m];
      MoreDraws(draws[..|draws| - 1], m);
    }
  }

  lemma AtMostAll(draws: seq<Draw>)
    ensures |FirstOccurrences(draws)| <= 25
  {
    var order := FirstOccurrences(draws);
    DistinctCardinality(order);
    SubsetCardinality(Elems(order), All());
  }

  /** generateTable over a stream of random numbers. It has no result if the stream runs out before every letter has
      been drawn: then the program goes on drawing. */
  method GenerateTable(draws: seq<Draw>) returns (result: Option<array<char>>)
    ensures result.Some? <==> |FirstOccurrences(draws)| == 25
    ensures result.Some? ==> fresh(result.value) && result.value[..] == Drawn(draws) && IsTable(result.value[..])
  {
    var tmp := new char[26](i => if 0 <= i < 25 then ALPHABET[i] else NUL);
    var table := new char[WIDTH * WIDTH];
    var used, ok, letter := 0, true, NUL;
    for i := 0 to WIDTH
      invariant used <= |draws| && Crossed(tmp[..], draws[..used])
      invariant |Drawn(draws[..used])| == i * WIDTH && table[..i * WIDTH] == Drawn(draws[..used])
    {
      for j := 0 to WIDTH
        invariant used <= |draws| && Crossed(tmp[..], draws[..used])
        invariant |Drawn(draws[..used])| == i * WIDTH + j && table[..i * WIDTH + j] == Drawn(draws[..used])
      {
        ok, letter, used := DrawLetter(tmp, draws, used);
        if !ok {
          return None;
        }
        table[i * WIDTH + j] := letter;
      }
    }
    assert table[..25] == table[..];
    EnoughDraws(draws, used);
    result := Some(table);
  }

  /** Draws until a letter turns up that is not yet crossed out, and crosses it out. */
  method DrawLetter(tmp: array<char>, draws: seq<Draw>, used: nat) returns (ok: bool, letter: char, used': nat)
    requires used <= |draws| && Crossed(tmp[..], draws[..used])
    modifies tmp
    ensures used <= used' <= |draws| && Crossed(tmp[..], draws[..used'])
    ensures ok ==> Drawn(draws[..used']) == Drawn(draws[..used]) + [letter]
    ensures !ok ==> |FirstOccurrences(draws)| == |Drawn(draws[..used])|
  {
    used' := used;
    while true
      invariant InVain(tmp[..], draws, used, used')
      decreases |draws| - used'
    {
      if used' == |draws| {
        assert draws[..used'] == draws;
        return false, NUL, used';
      }
      var r := draws[used'];
      OneMoreDraw(tmp[..], draws, used, used');
      used' := used' + 1;
      if tmp[r] != NUL {
        letter := tmp[r];
        tmp[r] := NUL;
        return true, letter, used';
      }
    }
  }

  /** From `used` to `used'`, only letters have been drawn that were crossed out already. */
  ghost predicate InVain(tmp: seq<char>, draws: seq<Draw>, used: nat, used': nat) {
    && used <= used' <= |draws| && Crossed(tmp, draws[..used'])
    && FirstOccurrences(draws[..used']) == FirstOccurrences(draws[..used])
  }

  /** Once 25 letters have been drawn, the rest of the stream does not matter. */
  lemma EnoughDraws(draws: seq<Draw>, used: nat)
    requires used <= |draws| && |FirstOccurrences(draws[..used])| == 25
    ensures |FirstOccurrences(draws)| == 25 && Drawn(draws) == Drawn(draws[..used]) && IsTable(Drawn(draws))
  {
    MoreDraws(draws, used);
    AtMostAll(draws);
    DrawnIsTable(draws);
  }

  /** The letters drawn so far are crossed out of the alphabet. */
  ghost predicate Crossed(tmp: seq<char>, draws: seq<Draw>) {
    |tmp| == 26 && forall r: Draw :: tmp[r] == if r in draws then NUL else ALPHABET[r]
  }

  lemma CrossOut(tmp: seq<char>, draws: seq<Draw>, r: Draw)
    requires Crossed(tmp, draws)
    ensures tmp[r] == if r in draws then NUL else ALPHABET[r]
    ensures ALPHABET[r] != NUL
    ensures Crossed(tmp[r := NUL], draws + [r])
    ensures r in draws ==> Crossed(tmp, draws + [r])
  {
    LetterAt(r);
    assert r in draws ==> tmp[r := NUL] == tmp;
  }

  lemma DrawAdds(draws: seq<Draw>, r: Draw)
    ensures r in draws ==> FirstOccurrences(draws + [r]) == FirstOccurrences(draws)
    ensures r !in draws ==> Drawn(draws + [r]) == Drawn(draws) + [ALPHABET[r]]
  {
    assert (draws + [r])[..|draws|] == draws;
    assert r in FirstOccurrences(draws) <==> r in Elems(draws);
  }

  lemma OneMoreDraw(tmp: seq<char>, draws: seq<Draw>, used: nat, used': nat)
    requires InVain(tmp, draws, used, used') && used' < |draws|
    ensures var r := draws[used'];
            && (tmp[r] == NUL ==> InVain(tmp, draws, used, used' + 1))
            && (tmp[r] != NUL ==> Crossed(tmp[r := NUL], draws[..used' + 1])
                                  && Drawn(draws[..used' + 1]) == Drawn(draws[..used]) + [tmp[r]])
  {
    assert draws[..used' + 1] == draws[..used'] + [draws[used']];
    CrossOut(tmp, draws[..used'], draws[used']);
    DrawAdds(draws[..used'], draws[used']);
  }

  // ----- encoding -----

  /** Row and column of a position, from 1, as a two-digit number. */
  function Coordinates(k: nat): (n: nat)
    requires k < 25
    ensures 11 <= n <= 55 && n / 10 == k / WIDTH + 1 && n % 10 == k % WIDTH + 1
    ensures PositionAt(n) == k
  {
    (k / WIDTH + 1) * 10 + (k % WIDTH + 1)
  }

  /** Where a two-digit number leads. */
  function PositionAt(n: nat): int {
    (n / 10 - 1) * WIDTH + (n % 10 - 1)
  }

  /** The coordinates of a letter; 0 if it is not in the table. */
  function TableIndex(a: char, table: seq<char>): (n: nat)
    requires |table| <= 25
    ensures a !in table <==> n == 0
    ensures a in table ==> 11 <= n <= 55 && 1 <= n % 10 <= 5
    ensures a in table ==> 0 <= PositionAt(n) < |table| && table[PositionAt(n)] == a
  {
    if a !in table then 0 else Coordinates(Find(table, a))
  }

  method GetTableIndex(a: char, table: array<char>) returns (index: nat)
    requires table.Length == 25
    ensures index == TableIndex(a, table[..])
  {
    for i := 0 to WIDTH
      invariant a !in table[..i * WIDTH]
    {
      for j := 0 to WIDTH
        invariant a !in table[..i * WIDTH + j]
      {
        if a == table[i * WIDTH + j] {
          IndexOfFirst(a, table[..], i, j);
          return (i + 1) * 10 + (j + 1);
        }
      }
    }
    assert table[..25] == table[..];
    return 0;
  }

  lemma IndexOfFirst(a: char, table: seq<char>, i: nat, j: nat)
    requires |table| == 25 && i < 5 && j < 5
    requires table[i * WIDTH + j] == a && a !in table[..i * WIDTH + j]
    ensures TableIndex(a, table) == (i + 1) * 10 + (j + 1)
  {
    FindUnique(table, a, i * WIDTH + j);
  }

  type TwoDigits = n: nat | n < 100

  /** What is written for one letter. */
  function Code(n: TwoDigits, format: TextType): string {
    [Digit(n / 10), Digit(n % 10)] + if format == WithBlank then " " else ""
  }

  function Indices(table: seq<char>, plaintext: string): (ns: seq<TwoDigits>)
    requires |table| <= 25
    ensures |ns| <= |plaintext|
  {
    if plaintext == "" then [] else
      var n := TableIndex(ToUpper(plaintext[0]), table);
      if n == 0 then Indices(table, plaintext[1..]) else [n] + Indices(table, plaintext[1..])
  }

  function Codes(ns: seq<TwoDigits>, format: TextType): string {
    if ns == [] then "" else Code(ns[0], format) + Codes(ns[1..], format)
  }

  function Encode(table: seq<char>, plaintext: string, format: TextType): string
    requires |table| <= 25
  {
    Codes(Indices(table, plaintext), format)
  }

  method PbEncode(table: array<char>, plaintext: string, format: TextType) returns (ciphertext: string)
    requires table.Length == 25
    ensures ciphertext == Encode(table[..], plaintext, format)
  {
    var arr := new TwoDigits[|plaintext|];
    var count := CollectIndices(table, plaintext, arr);
    ghost var ns := Indices(table[..], plaintext);
    assert ns[0..] == ns;
    ciphertext := "";
    for i := 0 to count
      invariant arr[..count] == ns && Codes(ns, format) == ciphertext + Codes(ns[i..], format)
    {
      CodesFrom(ciphertext, ns, i, format);
      assert arr[..count][i] == ns[i];
      ciphertext := ciphertext + Code(arr[i], format);
    }
  }

  /** The first loop of pbEncode: the coordinates of the letters that the table has. */
  method CollectIndices(table: array<char>, plaintext: string, arr: array<TwoDigits>) returns (count: nat)
    requires table.Length == 25 && arr.Length == |plaintext|
    modifies arr
    ensures count <= arr.Length && arr[..count] == Indices(table[..], plaintext)
    ensures table[..] == old(table[..])
  {
    count := 0;
    ghost var letters, done: seq<TwoDigits> := table[..], [];
    assert plaintext[0..] == plaintext;
    for i := 0 to |plaintext|
      invariant count <= i && table[..] == letters && arr[..count] == done
      invariant Indices(letters, plaintext) == done + Indices(letters, plaintext[i..])
    {
      IndicesFrom(done, letters, plaintext, i);
      var index := GetTableIndex(ToUpper(plaintext[i]), table);
      assert IndicesOf(letters, plaintext[i]) == if index == 0 then [] else [index];
      if index != 0 {
        arr[count] := index;
        count := count + 1;
        done := done + [index];
      } else {
        assert done + [] == done;
      }
    }
  }

  /** What one character adds. */
  function IndicesOf(table: seq<char>, c: char): seq<TwoDigits>
    requires |table| <= 25
  {
    if TableIndex(ToUpper(c), table) == 0 then [] else [TableIndex(ToUpper(c), table)]
  }

  lemma IndicesHead(table: seq<char>, text: string)
    requires |table| <= 25 && text != ""
    ensures Indices(table, text) == IndicesOf(table, text[0]) + Indices(table, text[1..])
  {
    var rest := Indices(table, text[1..]);
    assert [] + rest == rest;
  }

  lemma IndicesFrom(done: seq<TwoDigits>, table: seq<char>, plaintext: string, i: nat)
    requires |table| <= 25 && i < |plaintext|
    ensures done + Indices(table, plaintext[i..])
            == done + IndicesOf(table, plaintext[i]) + Indices(table, plaintext[i + 1..])
  {
    IndicesHead(table, plaintext[i..]);
    assert plaintext[i..][0] == plaintext[i] && plaintext[i..][1..] == plaintext[i + 1..];
    Rejoin(done, IndicesOf(table, plaintext[i]), Indices(table, plaintext[i + 1..]));
  }

  lemma Rejoin<T>(a: seq<T>, b: seq<T>, c: seq<T>)
    ensures a + (b + c) == a + b + c
  {
  }

  lemma CodesFrom(done: string, ns: seq<TwoDigits>, i: nat, format: TextType)
    requires i < |ns|
    ensures done + Codes(ns[i..], format) == done + Code(ns[i], format) + Codes(ns[i + 1..], format)
  {
    assert ns[i..][1..] == ns[i + 1..];
  }

  // ----- decoding -----

  /** The letter at a two-digit number; None if the number leads outside the table. */
  function TableChar(n: nat, table: seq<char>): Option<char> {
    var k := PositionAt(n);
    if 0 <= k < |table| then Some(ToLower(table[k])) else None
  }

  function Value(c: char): (n: nat)
    requires IsDigit(c)
    ensures n < 10 && c == Digit(n)
  {
    c as int - '0' as int
  }

  /** Digits are read in pairs; other characters and numbers up to 10 are skipped. None if some number leads outside
      the table. */
  function Decode(table: seq<char>, c: string): Option<string> {
    if |c| < 2 then Some("")
    else if IsDigit(c[0]) && IsDigit(c[1]) then
      var rest := Decode(table, c[2..]);
      var n := Value(c[0]) * 10 + Value(c[1]);
      if n <= 10 then rest
      else if rest.None? || TableChar(n, table).None? then None
      else Some([TableChar(n, table).value] + rest.value)
    else Decode(table, c[1..])
  }

  method PbDecode(table: array<char>, ciphertext: string) returns (result: Option<string>)
    ensures result == Decode(table[..], ciphertext)
  {
    var text := "";
    var i := 0;
    assert ciphertext[0..] == ciphertext && forall s: string :: "" + s == s;
    while i < |ciphertext| - 1
      invariant i <= |ciphertext|
      invariant Decode(table[..], ciphertext) == Prefixed(text, Decode(table[..], ciphertext[i..]))
      decreases |ciphertext| - i
    {
      var num := 0;
      ghost var rest := ciphertext[i..];
      assert rest[1..] == ciphertext[i + 1..] && rest[2..] == ciphertext[i + 2..];
      if IsDigit(ciphertext[i]) && IsDigit(ciphertext[i + 1]) {
        num := Value(ciphertext[i]) * 10 + Value(ciphertext[i + 1]);
        i := i + 1;
      }
      if num > 10 {
        var c := TableChar(num, table[..]);
        if c.None? {
          return None;
        }
        Rebracket(text, c.value, Decode(table[..], ciphertext[i + 1..]));
        text := text + [c.value];
      }
      i := i + 1;
    }
    assert text + "" == text;
    result := Some(text);
  }

  /** What is decoded already, before what is still to come. */
  function Prefixed(text: string, rest: Option<string>): Option<string> {
    if rest.None? then None else Some(text + rest.value)
  }

  lemma Rebracket(text: string, c: char, rest: Option<string>)
    ensures Prefixed(text + [c], rest) == Prefixed(text, Prefixed([c], rest))
  {
    if rest.Some? { assert text + [c] + rest.value == text + ([c] + rest.value); }
  }

  // ----- what the decoder makes of any text -----

  /** Where a number leads, counting the 25 letters from 0 and a row as five. */
  lemma TableCharExactly(n: nat, table: seq<char>)
    requires |table| == 25
    ensures TableChar(n, table).Some? <==> 6 <= n / 10 * 5 + n % 10 < 31
    ensures 6 <= n / 10 * 5 + n % 10 < 31 ==>
              var c := table[n / 10 * 5 + n % 10 - 6];
              && ('A' <= c <= 'Z' ==> TableChar(n, table).value as int - 'a' as int == c as int - 'A' as int)
              && (!('A' <= c <= 'Z') ==> TableChar(n, table).value == c)
  {
  }

  /** Decoding gives small letters only. */
  lemma {:induction false} DecodesToSmall(table: seq<char>, c: string)
    requires IsTable(table)
    ensures Decode(table, c).Some? ==> forall i :: 0 <= i < |Decode(table, c).value| ==> 'a' <= Decode(table, c).value[i] <= 'z'
  {
    if |c| < 2 {
    } else if IsDigit(c[0]) && IsDigit(c[1]) {
      DecodesToSmall(table, c[2..]);
      var n := Value(c[0]) * 10 + Value(c[1]);
      if TableChar(n, table).Some? {
        TableCharExactly(n, table);
        LettersDistinct();
        SameLetters(table, table[PositionAt(n)]);
      }
    } else {
      DecodesToSmall(table, c[1..]);
    }
  }

  /** The parts of a text as the decoder takes them: two digits, a digit that no digit follows, another character. */
  datatype Token = Pair(n: TwoDigits) | Lone(d: char) | Other(c: char)

  /** Where the tokens stand as the decoder takes them. */
  predicate Proper(ts: seq<Token>) {
    ts == [] || (Proper(ts[1..])
                 && match ts[0]
                    case Pair(_) => true
                    case Lone(d) => IsDigit(d) && (|ts| == 1 || ts[1].Other?)
                    case Other(c) => !IsDigit(c))
  }

  function Spelling(t: Token): string {
    match t
    case Pair(n) => [Digit(n / 10), Digit(n % 10)]
    case Lone(d) => [d]
    case Other(c) => [c]
  }

  function Spell(ts: seq<Token>): string {
    if ts == [] then "" else Spelling(ts[0]) + Spell(ts[1..])
  }

  /** The numbers above 10, in order. */
  function Numbers(ts: seq<Token>): seq<TwoDigits> {
    if ts == [] then [] else
      (if ts[0].Pair? && ts[0].n > 10 then [ts[0].n] else []) + Numbers(ts[1..])
  }

  /** The letters at the numbers, if they all lead to one. */
  function LettersAt(ns: seq<TwoDigits>, table: seq<char>): Option<string> {
    if ns == [] then Some("")
    else if TableChar(ns[0], table).None? then None
    else Prefixed([TableChar(ns[0], table).value], LettersAt(ns[1..], table))
  }

  lemma PairFront(n: TwoDigits, rest: string, table: seq<char>)
    ensures Decode(table, Spelling(Pair(n)) + rest) ==
            if n > 10 then
              if TableChar(n, table).None? then None else Prefixed([TableChar(n, table).value], Decode(table, rest))
            else Decode(table, rest)
  {
    var c := Spelling(Pair(n)) + rest;
    assert c[0] == Digit(n / 10) && c[1] == Digit(n % 10) && c[2..] == rest;
    assert Value(c[0]) * 10 + Value(c[1]) == n;
  }

  /** A character that is no part of a number is passed over. */
  lemma SkipsOne(x: char, rest: string, table: seq<char>)
    requires !IsDigit(x) || rest == "" || !IsDigit(rest[0])
    ensures Decode(table, [x] + rest) == Decode(table, rest)
  {
    assert ([x] + rest)[1..] == rest;
  }

  lemma OtherFirst(ts: seq<Token>)
    requires Proper(ts) && ts != [] && ts[0].Other?
    ensures Spell(ts) != "" && !IsDigit(Spell(ts)[0])
  {
  }

  /** Decoding any text, taken apart into tokens, gives the letters at its numbers above 10. */
  lemma {:induction false} DecodeTokens(ts: seq<Token>, table: seq<char>)
    requires Proper(ts)
    ensures Decode(table, Spell(ts)) == LettersAt(Numbers(ts), table)
  {
    if ts == [] {
    } else {
      var rest := ts[1..];
      DecodeTokens(rest, table);
      match ts[0] {
        case Pair(n) =>
          PairFront(n, Spell(rest), table);
          if n > 10 { NumbersFront(n, Numbers(rest), table); } else { assert [] + Numbers(rest) == Numbers(rest); }
        case Lone(d) =>
          if rest != [] { OtherFirst(rest); }
          SkipsOne(d, Spell(rest), table);
          assert [] + Numbers(rest) == Numbers(rest);
        case Other(c) =>
          SkipsOne(c, Spell(rest), table);
          assert [] + Numbers(rest) == Numbers(rest);
      }
    }
  }

  lemma NumbersFront(n: TwoDigits, ns: seq<TwoDigits>, table: seq<char>)
    ensures LettersAt([n] + ns, table) ==
            if TableChar(n, table).None? then None else Prefixed([TableChar(n, table).value], LettersAt(ns, table))
  {
    assert ([n] + ns)[1..] == ns;
  }

  /** Every text can be taken apart like that. */
  lemma {:induction false} EveryText(c: string) returns (ts: seq<Token>)
    ensures Proper(ts) && Spell(ts) == c
    decreases |c|
  {
    if c == "" {
      ts := [];
    } else if |c| >= 2 && IsDigit(c[0]) && IsDigit(c[1]) {
      var rest := EveryText(c[2..]);
      var n: TwoDigits := Value(c[0]) * 10 + Value(c[1]);
      assert n / 10 == Value(c[0]) && n % 10 == Value(c[1]);
      ts := Before(Pair(n), rest);
      assert c == Spelling(Pair(n)) + c[2..];
    } else {
      var rest := EveryText(c[1..]);
      assert c == [c[0]] + c[1..];
      if rest != [] && IsDigit(c[0]) { FirstIsOther(rest); }
      ts := Before(if IsDigit(c[0]) then Lone(c[0]) else Other(c[0]), rest);
    }
  }

  lemma Before(t: Token, rest: seq<Token>) returns (ts: seq<Token>)
    requires Proper(rest)
    requires t.Lone? ==> IsDigit(t.d) && (rest == [] || rest[0].Other?)
    requires t.Other? ==> !IsDigit(t.c)
    ensures Proper(ts) && Spell(ts) == Spelling(t) + Spell(rest)
  {
    ts := [t] + rest;
    assert ts[1..] == rest;
  }

  lemma FirstIsOther(ts: seq<Token>)
    requires Proper(ts) && ts != [] && !IsDigit(Spell(ts)[0])
    ensures ts[0].Other?
  {
  }

  // ----- round trips -----

  /** What survives: the letters other than J, in lower case. */
  function Normal(plaintext: string): string {
    if plaintext == "" then ""
    else if ToUpper(plaintext[0]) in ALPHABET then [ToLower(plaintext[0])] + Normal(plaintext[1..])
    else Normal(plaintext[1..])
  }

  /** Small letters other than j stay, capitals other than J become small, and all else is dropped. */
  lemma NormalChar(c: char)
    ensures Normal([c]) ==
            if 'a' <= c <= 'z' then (if c == 'j' then "" else [c])
            else if 'A' <= c <= 'Z' then (if c == 'J' then "" else [(c as int - 'A' as int + 'a' as int) as char])
            else ""
  {
    NormalOne(c);
    InAlphabet(ToUpper(c));
  }

  lemma NormalOne(c: char)
    ensures Normal([c]) == if ToUpper(c) in ALPHABET then [ToLower(c)] else ""
  {
    assert [c][1..] == "" && [ToLower(c)] + "" == [ToLower(c)];
  }

  lemma InAlphabet(c: char)
    ensures c in ALPHABET <==> 'A' <= c <= 'Z' && c != 'J'
  {
    LettersDistinct();
  }

  lemma {:induction false} NormalAppend(p: string, q: string)
    ensures Normal(p + q) == Normal(p) + Normal(q)
  {
    if p == "" {
      assert "" + q == q;
    } else {
      assert (p + q)[1..] == p[1..] + q;
      NormalAppend(p[1..], q);
    }
  }

  /** A text of small letters other than j comes back from encoding and decoding as it was. */
  lemma {:induction false} SmallLettersReturn(table: seq<char>, p: string, format: TextType)
    requires IsTable(table) && forall i :: 0 <= i < |p| ==> 'a' <= p[i] <= 'z' && p[i] != 'j'
    ensures Decode(table, Encode(table, p, format)) == Some(p)
  {
    DecodeEncode(table, p, format);
    SmallIsNormal(p);
  }

  lemma {:induction false} SmallIsNormal(p: string)
    requires forall i :: 0 <= i < |p| ==> 'a' <= p[i] <= 'z' && p[i] != 'j'
    ensures Normal(p) == p
  {
    if p == "" {
    } else {
      assert p == [p[0]] + p[1..];
      NormalChar(p[0]);
      NormalAppend([p[0]], p[1..]);
      SmallIsNormal(p[1..]);
    }
  }

  /** Decoding takes one code off the front. */
  lemma DecodeCode(table: seq<char>, n: TwoDigits, rest: string, format: TextType)
    requires n > 10 && TableChar(n, table).Some?
    ensures Decode(table, Code(n, format) + rest) == Prefixed([TableChar(n, table).value], Decode(table, rest))
  {
    var c := Code(n, format) + rest;
    var tail := (if format == WithBlank then " " else "") + rest;
    assert c[0] == Digit(n / 10) && c[1] == Digit(n % 10) && c[2..] == tail;
    assert Value(c[0]) * 10 + Value(c[1]) == n;
    assert format == WithBlank ==> tail[1..] == rest;
    assert format == NoBlank ==> tail == rest;
  }

  lemma SameLetters(table: seq<char>, c: char)
    requires IsTable(table)
    ensures c in table <==> c in ALPHABET
  {
    assert c in table <==> c in Elems(table);
    assert c in ALPHABET <==> c in Elems(ALPHABET);
  }

  lemma LetterDecodes(table: seq<char>, c: char)
    requires |table| == 25 && ToUpper(c) in table && ToUpper(c) in ALPHABET
    ensures TableChar(TableIndex(ToUpper(c), table), table) == Some(ToLower(c))
  {
  }

  lemma CodesFront(n: TwoDigits, ns: seq<TwoDigits>, format: TextType)
    ensures Codes([n] + ns, format) == Code(n, format) + Codes(ns, format)
  {
    assert ([n] + ns)[1..] == ns;
  }

  /** Decoding an encoded text gives the text in lower case without the characters that the table lacks. */
  lemma {:induction false} DecodeEncode(table: seq<char>, plaintext: string, format: TextType)
    requires IsTable(table)
    ensures Decode(table, Encode(table, plaintext, format)) == Some(Normal(plaintext))
  {
    if plaintext == "" {
    } else {
      DecodeEncode(table, plaintext[1..], format);
      SameLetters(table, ToUpper(plaintext[0]));
      if ToUpper(plaintext[0]) in table {
        var n, rest := TableIndex(ToUpper(plaintext[0]), table), Indices(table, plaintext[1..]);
        LetterDecodes(table, plaintext[0]);
        CodesFront(n, rest, format);
        DecodeCode(table, n, Codes(rest, format), format);
      }
    }
  }

  /** A cipher text: pairs of digits from 1 to 5, each followed by a blank in the blank form. */
  predicate WellFormed(c: string, format: TextType) {
    c == "" || (var m := if format == WithBlank then 3 else 2;
                && |c| >= m && '1' <= c[0] <= '5' && '1' <= c[1] <= '5' && (m == 3 ==> c[2] == ' ')
                && WellFormed(c[m..], format))
  }

  lemma LetterCase(c: char)
    requires c in ALPHABET
    ensures ToUpper(ToLower(c)) == c
  {
    LettersDistinct();
  }

  lemma IndexOfPosition(table: seq<char>, k: nat)
    requires |table| == 25 && Distinct(table) && k < 25
    ensures TableIndex(table[k], table) == Coordinates(k)
  {
    assert table[k] !in table[..k];
    FindUnique(table, table[k], k);
  }

  lemma CellOf(row: nat, column: nat)
    requires 1 <= row <= 5 && 1 <= column <= 5
    ensures 0 <= PositionAt(row * 10 + column) < 25
    ensures Coordinates(PositionAt(row * 10 + column)) == row * 10 + column
  {
    assert (row * 10 + column) / 10 == row;
  }

  lemma IndexOfLetter(table: seq<char>, row: nat, column: nat)
    requires IsTable(table) && 1 <= row <= 5 && 1 <= column <= 5
    ensures TableChar(row * 10 + column, table).Some?
    ensures TableIndex(ToUpper(TableChar(row * 10 + column, table).value), table) == row * 10 + column
  {
    CellOf(row, column);
    var k := PositionAt(row * 10 + column);
    assert table[k] in table;
    SameLetters(table, table[k]);
    LetterCase(table[k]);
    IndexOfPosition(table, k);
  }

  /** A cipher text opens with the code of a pair of digits. */
  lemma FirstCode(c: string, format: TextType) returns (row: nat, column: nat, rest: string)
    requires WellFormed(c, format) && c != ""
    ensures 1 <= row <= 5 && 1 <= column <= 5 && WellFormed(rest, format) && |rest| < |c|
    ensures c == Code(row * 10 + column, format) + rest
  {
    row, column := Value(c[0]), Value(c[1]);
    rest := if format == WithBlank then c[3..] else c[2..];
    var n := row * 10 + column;
    assert n / 10 == row && n % 10 == column;
  }

  lemma IndicesFront(table: seq<char>, letter: char, rest: string)
    requires |table| == 25 && TableIndex(ToUpper(letter), table) != 0
    ensures Indices(table, [letter] + rest) == [TableIndex(ToUpper(letter), table)] + Indices(table, rest)
  {
    assert ([letter] + rest)[1..] == rest;
  }

  /** The encoding of what `c` decodes to is `c`. */
  ghost predicate Returns(table: seq<char>, c: string, format: TextType)
    requires |table| <= 25
  {
    Decode(table, c).Some? && Encode(table, Decode(table, c).value, format) == c
  }

  /** Every well-formed cipher text is the encoding of what it decodes to. */
  lemma {:induction false} EncodeDecode(table: seq<char>, c: string, format: TextType)
    requires IsTable(table) && WellFormed(c, format)
    ensures Returns(table, c, format)
    decreases |c|
  {
    if c == "" {
      NothingReturns(table, format);
    } else {
      var row, column, rest := FirstCode(c, format);
      EncodeDecode(table, rest, format);
      PairDecodes(table, rest, row, column, format);
    }
  }

  lemma NothingReturns(table: seq<char>, format: TextType)
    requires |table| <= 25
    ensures Returns(table, "", format)
  {
    assert Decode(table, "") == Some("");
  }

  lemma PairDecodes(table: seq<char>, tail: string, row: nat, column: nat, format: TextType)
    requires IsTable(table) && 1 <= row <= 5 && 1 <= column <= 5
    requires Returns(table, tail, format)
    ensures Returns(table, Code(row * 10 + column, format) + tail, format)
  {
    var n := row * 10 + column;
    IndexOfLetter(table, row, column);
    DecodeCode(table, n, tail, format);
    var letter, rest := TableChar(n, table).value, Decode(table, tail).value;
    IndicesFront(table, letter, rest);
    CodesFront(n, Indices(table, rest), format);
  }

  lemma UpperOfLower(c: char)
    ensures ToUpper(ToLower(c)) == ToUpper(c)
  {
  }

  /** Encoding forgets exactly what `Normal` drops. */
  lemma {:induction false} EncodeNormal(table: seq<char>, plaintext: string)
    requires IsTable(table)
    ensures Indices(table, Normal(plaintext)) == Indices(table, plaintext)
  {
    if plaintext == "" {
    } else {
      var letter := plaintext[0];
      EncodeNormal(table, plaintext[1..]);
      SameLetters(table, ToUpper(letter));
      if ToUpper(letter) in table {
        UpperOfLower(letter);
        IndicesFront(table, ToLower(letter), Normal(plaintext[1..]));
      }
    }
  }

  /** Two texts have the same encoding exactly when they have the same letters. */
  lemma EncodeInjective(table: seq<char>, p: string, q: string, format: TextType)
    requires IsTable(table)
    ensures Encode(table, p, format) == Encode(table, q, format) <==> Normal(p) == Normal(q)
  {
    DecodeEncode(table, p, format);
    DecodeEncode(table, q, format);
    EncodeNormal(table, p);
    EncodeNormal(table, q);
  }
}
