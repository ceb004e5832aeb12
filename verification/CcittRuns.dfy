/** Run codes of the CCITT decoder: `decode_run` and its two lookups (src/filters/ccitt.rs) with the contents of
    `FAX_WHITE_TABLE` and `FAX_BLACK_TABLE` (src/filters/ccitt_tables.rs), against the code words of tables 2 and 3
    of ITU-T T.4. */
module CcittRuns {
  import opened Bits
  import opened CcittBits

  // ---------------------------------------------------------------- the tables

  /** A run table as the tree its entries spell: bits lead from node to node, the first bit from the root. `T` ends a
      run and `M` is a make-up code, both with their length; `Eol` is the end-of-line code. */
  datatype Tree = Absent | Eol | T(run: nat) | M(run: nat) | Node(zero: Tree, one: Tree)

  /** Codes of both colours: end of line and the make-up codes from 1792 on. */
  const EXTENDED: Tree :=
    Node(
      Node(Node(Node(Eol, Absent), Absent), Absent),
      Node(
        Node(Node(M(1792), Node(M(1984), M(2048))), Node(Node(M(2112), M(2176)), Node(M(2240), M(2304)))),
        Node(Node(M(1856), M(1920)), Node(Node(M(2368), M(2432)), Node(M(2496), M(2560))))))

  const WHITE: Tree :=
    Node(
      Node(
        Node(
          Node(
            Node(
              Node(Node(EXTENDED, Node(T(29), T(30))), Node(Node(T(45), T(46)), T(22))),
              Node(Node(T(23), Node(T(47), T(48))), T(13))),
            Node(
              Node(Node(T(20), Node(T(33), T(34))), Node(Node(T(35), T(36)), Node(T(37), T(38)))),
              Node(Node(T(19), Node(T(31), T(32))), T(1)))),
          Node(
            Node(
              Node(T(12), Node(Node(T(53), T(54)), T(26))),
              Node(Node(Node(T(39), T(40)), Node(T(41), T(42))), Node(Node(T(43), T(44)), T(21)))),
            Node(Node(Node(T(28), Node(T(61), T(62))), Node(Node(T(63), T(0)), Node(M(320), M(384)))), T(10)))),
        Node(
          Node(
            Node(
              T(11),
              Node(
                Node(T(27), Node(T(59), T(60))),
                Node(Node(Node(M(1472), M(1536)), Node(M(1600), M(1728))), T(18)))),
            Node(
              Node(Node(T(24), Node(T(49), T(50))), Node(Node(T(51), T(52)), T(25))),
              Node(Node(Node(T(55), T(56)), Node(T(57), T(58))), M(192)))),
          Node(
            Node(
              Node(M(1664), Node(Node(M(448), M(512)), Node(Node(M(704), M(768)), M(640)))),
              Node(
                Node(Node(M(576), Node(M(832), M(896))), Node(Node(M(960), M(1024)), Node(M(1088), M(1152)))),
                Node(Node(Node(M(1216), M(1280)), Node(M(1344), M(1408))), M(256)))),
            T(2)))),
      Node(
        Node(Node(T(3), Node(M(128), T(8))), Node(Node(T(9), Node(T(16), T(17))), T(4))),
        Node(Node(T(5), Node(Node(T(14), T(15)), M(64))), Node(T(6), T(7)))))

  const BLACK: Tree :=
    Node(
      Node(
        Node(
          Node(
            Node(
              Node(
                Node(
                  EXTENDED,
                  Node(
                    Node(
                      Node(T(18), Node(Node(T(52), Node(M(640), M(704))), Node(Node(M(768), M(832)), T(55)))),
                      Node(
                        Node(Node(T(56), Node(M(1280), M(1344))), Node(Node(M(1408), M(1472)), T(59))),
                        Node(Node(T(60), Node(M(1536), M(1600))), T(24)))),
                    Node(
                      Node(
                        Node(T(25), Node(Node(M(1664), M(1728)), M(320))),
                        Node(Node(M(384), M(448)), Node(Node(M(512), M(576)), T(53)))),
                      Node(
                        Node(
                          Node(T(54), Node(M(896), M(960))),
                          Node(Node(M(1024), M(1088)), Node(M(1152), M(1216)))),
                        M(64))))),
                Node(
                  Node(
                    T(13),
                    Node(
                      Node(Node(T(23), Node(T(50), T(51))), Node(Node(T(44), T(45)), Node(T(46), T(47)))),
                      Node(Node(Node(T(57), T(58)), Node(T(61), M(256))), T(16)))),
                  Node(
                    Node(
                      Node(T(17), Node(Node(T(48), T(49)), Node(T(62), T(63)))),
                      Node(Node(Node(T(30), T(31)), Node(T(32), T(33))), Node(Node(T(40), T(41)), T(22)))),
                    T(14)))),
              Node(
                Node(T(10), T(11)),
                Node(
                  Node(
                    Node(
                      T(15),
                      Node(Node(Node(M(128), M(192)), Node(T(26), T(27))), Node(Node(T(28), T(29)), T(19)))),
                    Node(
                      Node(Node(T(20), Node(T(34), T(35))), Node(Node(T(36), T(37)), Node(T(38), T(39)))),
                      Node(Node(T(21), Node(T(42), T(43))), T(0)))),
                  T(12)))),
            Node(Node(T(9), T(8)), T(7))),
          Node(T(6), T(5))),
        Node(T(1), T(4))),
      Node(T(3), T(2)))

  // ---------------------------------------------------------------- the code words of the standard

  /** Terminating codes of white runs, eight to a row from the run in the name on. */
  const WHITE_0: seq<string> := [
    "00110101", "000111", "0111", "1000", "1011", "1100", "1110", "1111"]
  const WHITE_8: seq<string> := [
    "10011", "10100", "00111", "01000", "001000", "000011", "110100", "110101"]
  const WHITE_16: seq<string> := [
    "101010", "101011", "0100111", "0001100", "0001000", "0010111", "0000011", "0000100"]
  const WHITE_24: seq<string> := [
    "0101000", "0101011", "0010011", "0100100", "0011000", "00000010", "00000011", "00011010"]
  const WHITE_32: seq<string> := [
    "00011011", "00010010", "00010011", "00010100", "00010101", "00010110", "00010111", "00101000"]
  const WHITE_40: seq<string> := [
    "00101001", "00101010", "00101011", "00101100", "00101101", "00000100", "00000101", "00001010"]
  const WHITE_48: seq<string> := [
    "00001011", "01010010", "01010011", "01010100", "01010101", "00100100", "00100101", "01011000"]
  const WHITE_56: seq<string> := [
    "01011001", "01011010", "01011011", "01001010", "01001011", "00110010", "00110011", "00110100"]

  /** Make-up codes of white runs, eight to a row. */
  const WHITE_MAKE_UP_64: seq<string> := [
    "11011", "10010", "010111", "0110111", "00110110", "00110111", "01100100", "01100101"]
  const WHITE_MAKE_UP_576: seq<string> := [
    "01101000", "01100111", "011001100", "011001101", "011010010", "011010011", "011010100", "011010101"]
  const WHITE_MAKE_UP_1088: seq<string> := [
    "011010110", "011010111", "011011000", "011011001", "011011010", "011011011", "010011000", "010011001"]
  const WHITE_MAKE_UP_1600: seq<string> := [
    "010011010", "011000", "010011011", "00000001000", "00000001100", "00000001101", "000000010010",
    "000000010011"]
  const WHITE_MAKE_UP_2112: seq<string> := [
    "000000010100", "000000010101", "000000010110", "000000010111", "000000011100", "000000011101",
    "000000011110", "000000011111"]

  /** Terminating codes of black runs. */
  const BLACK_0: seq<string> := [
    "0000110111", "010", "11", "10", "011", "0011", "0010", "00011"]
  const BLACK_8: seq<string> := [
    "000101", "000100", "0000100", "0000101", "0000111", "00000100", "00000111", "000011000"]
  const BLACK_16: seq<string> := [
    "0000010111", "0000011000", "0000001000", "00001100111", "00001101000", "00001101100", "00000110111",
    "00000101000"]
  const BLACK_24: seq<string> := [
    "00000010111", "00000011000", "000011001010", "000011001011", "000011001100", "000011001101",
    "000001101000", "000001101001"]
  const BLACK_32: seq<string> := [
    "000001101010", "000001101011", "000011010010", "000011010011", "000011010100", "000011010101",
    "000011010110", "000011010111"]
  const BLACK_40: seq<string> := [
    "000001101100", "000001101101", "000011011010", "000011011011", "000001010100", "000001010101",
    "000001010110", "000001010111"]
  const BLACK_48: seq<string> := [
    "000001100100", "000001100101", "000001010010", "000001010011", "000000100100", "000000110111",
    "000000111000", "000000100111"]
  const BLACK_56: seq<string> := [
    "000000101000", "000001011000", "000001011001", "000000101011", "000000101100", "000001011010",
    "000001100110", "000001100111"]

  /** Make-up codes of black runs. */
  const BLACK_MAKE_UP_64: seq<string> := [
    "0000001111", "000011001000", "000011001001", "000001011011", "000000110011", "000000110100",
    "000000110101", "0000001101100"]
  const BLACK_MAKE_UP_576: seq<string> := [
    "0000001101101", "0000001001010", "0000001001011", "0000001001100", "0000001001101", "0000001110010",
    "0000001110011", "0000001110100"]
  const BLACK_MAKE_UP_1088: seq<string> := [
    "0000001110101", "0000001110110", "0000001110111", "0000001010010", "0000001010011", "0000001010100",
    "0000001010101", "0000001011010"]
  const BLACK_MAKE_UP_1600: seq<string> := [
    "0000001011011", "0000001100100", "0000001100101", "00000001000", "00000001100", "00000001101",
    "000000010010", "000000010011"]
  const BLACK_MAKE_UP_2112: seq<string> := [
    "000000010100", "000000010101", "000000010110", "000000010111", "000000011100", "000000011101",
    "000000011110", "000000011111"]

  const WHITE_ROWS: seq<seq<string>> := [WHITE_0, WHITE_8, WHITE_16, WHITE_24, WHITE_32, WHITE_40, WHITE_48, WHITE_56]
  const WHITE_MAKE_UP_ROWS: seq<seq<string>> :=
    [WHITE_MAKE_UP_64, WHITE_MAKE_UP_576, WHITE_MAKE_UP_1088, WHITE_MAKE_UP_1600, WHITE_MAKE_UP_2112]
  const BLACK_ROWS: seq<seq<string>> := [BLACK_0, BLACK_8, BLACK_16, BLACK_24, BLACK_32, BLACK_40, BLACK_48, BLACK_56]
  const BLACK_MAKE_UP_ROWS: seq<seq<string>> :=
    [BLACK_MAKE_UP_64, BLACK_MAKE_UP_576, BLACK_MAKE_UP_1088, BLACK_MAKE_UP_1600, BLACK_MAKE_UP_2112]

  function Rows(white: bool, makeUp: bool): (rows: seq<seq<string>>)
    ensures |rows| == if makeUp then 5 else 8
  {
    if white then (if makeUp then WHITE_MAKE_UP_ROWS else WHITE_ROWS)
    else (if makeUp then BLACK_MAKE_UP_ROWS else BLACK_ROWS)
  }

  /** The code word of a run length that has one. */
  predicate HasWord(leaf: Tree) {
    (leaf.T? && leaf.run < 64) || (leaf.M? && 0 < leaf.run <= 2560 && leaf.run % 64 == 0)
  }

  function WordAt(rows: seq<seq<string>>, k: nat): string {
    if k / 8 < |rows| && k % 8 < |rows[k / 8]| then rows[k / 8][k % 8] else ""
  }

  function Word(white: bool, leaf: Tree): string
    requires HasWord(leaf)
  {
    if leaf.M? then WordAt(Rows(white, true), leaf.run / 64 - 1) else WordAt(Rows(white, false), leaf.run)
  }

  function Digits(w: string): (s: seq<bool>)
    ensures |s| == |w|
  {
    seq(|w|, i requires 0 <= i < |w| => w[i] == '1')
  }

  /** The characters of the word from `i` on lead from `t` to `leaf`. */
  predicate Spells(t: Tree, w: string, i: nat, leaf: Tree)
    requires i <= |w|
    decreases |w| - i
  {
    if i == |w| then t == leaf
    else t.Node? && if w[i] == '1' then Spells(t.one, w, i + 1, leaf) else Spells(t.zero, w, i + 1, leaf)
  }

  function TreeOf(white: bool): Tree {
    if white then WHITE else BLACK
  }

  /** How many bits the lookup peeks at. */
  function Window(white: bool): nat {
    if white then 12 else 13
  }

  /** The word fits the lookup, with bits to spare if it ends a run, and leads to the leaf. */
  predicate IsWord(white: bool, w: string, leaf: Tree) {
    |w| <= Window(white) - (if leaf.T? then 1 else 0) && Spells(TreeOf(white), w, 0, leaf)
  }

  lemma White0(n: nat)
    requires n < 8
    ensures |WHITE_0| == 8 && IsWord(true, WHITE_0[n], T(n))
  {
  }

  lemma White8(n: nat)
    requires n < 8
    ensures |WHITE_8| == 8 && IsWord(true, WHITE_8[n], T(n + 8))
  {
  }

  lemma White16(n: nat)
    requires n < 8
    ensures |WHITE_16| == 8 && IsWord(true, WHITE_16[n], T(n + 16))
  {
  }

  lemma White24(n: nat)
    requires n < 8
    ensures |WHITE_24| == 8 && IsWord(true, WHITE_24[n], T(n + 24))
  {
  }

  lemma White32(n: nat)
    requires n < 8
    ensures |WHITE_32| == 8 && IsWord(true, WHITE_32[n], T(n + 32))
  {
  }

  lemma White40(n: nat)
    requires n < 8
    ensures |WHITE_40| == 8 && IsWord(true, WHITE_40[n], T(n + 40))
  {
  }

  lemma White48(n: nat)
    requires n < 8
    ensures |WHITE_48| == 8 && IsWord(true, WHITE_48[n], T(n + 48))
  {
  }

  lemma White56(n: nat)
    requires n < 8
    ensures |WHITE_56| == 8 && IsWord(true, WHITE_56[n], T(n + 56))
  {
  }

  lemma WhiteMakeUp64(n: nat)
    requires n < 8
    ensures |WHITE_MAKE_UP_64| == 8 && IsWord(true, WHITE_MAKE_UP_64[n], M(64 * n + 64))
  {
  }

  lemma WhiteMakeUp576(n: nat)
    requires n < 8
    ensures |WHITE_MAKE_UP_576| == 8 && IsWord(true, WHITE_MAKE_UP_576[n], M(64 * n + 576))
  {
  }

  lemma WhiteMakeUp1088(n: nat)
    requires n < 8
    ensures |WHITE_MAKE_UP_1088| == 8 && IsWord(true, WHITE_MAKE_UP_1088[n], M(64 * n + 1088))
  {
  }

  lemma WhiteMakeUp1600(n: nat)
    requires n < 8
    ensures |WHITE_MAKE_UP_1600| == 8 && IsWord(true, WHITE_MAKE_UP_1600[n], M(64 * n + 1600))
  {
  }

  lemma WhiteMakeUp2112(n: nat)
    requires n < 8
    ensures |WHITE_MAKE_UP_2112| == 8 && IsWord(true, WHITE_MAKE_UP_2112[n], M(64 * n + 2112))
  {
  }

  lemma Black0(n: nat)
    requires n < 8
    ensures |BLACK_0| == 8 && IsWord(false, BLACK_0[n], T(n))
  {
  }

  lemma Black8(n: nat)
    requires n < 8
    ensures |BLACK_8| == 8 && IsWord(false, BLACK_8[n], T(n + 8))
  {
  }

  lemma Black16(n: nat)
    requires n < 8
    ensures |BLACK_16| == 8 && IsWord(false, BLACK_16[n], T(n + 16))
  {
  }

  lemma Black24(n: nat)
    requires n < 8
    ensures |BLACK_24| == 8 && IsWord(false, BLACK_24[n], T(n + 24))
  {
  }

  lemma Black32(n: nat)
    requires n < 8
    ensures |BLACK_32| == 8 && IsWord(false, BLACK_32[n], T(n + 32))
  {
  }

  lemma Black40(n: nat)
    requires n < 8
    ensures |BLACK_40| == 8 && IsWord(false, BLACK_40[n], T(n + 40))
  {
  }

  lemma Black48(n: nat)
    requires n < 8
    ensures |BLACK_48| == 8 && IsWord(false, BLACK_48[n], T(n + 48))
  {
  }

  lemma Black56(n: nat)
    requires n < 8
    ensures |BLACK_56| == 8 && IsWord(false, BLACK_56[n], T(n + 56))
  {
  }

  lemma BlackMakeUp64(n: nat)
    requires n < 8
    ensures |BLACK_MAKE_UP_64| == 8 && IsWord(false, BLACK_MAKE_UP_64[n], M(64 * n + 64))
  {
  }

  lemma BlackMakeUp576(n: nat)
    requires n < 8
    ensures |BLACK_MAKE_UP_576| == 8 && IsWord(false, BLACK_MAKE_UP_576[n], M(64 * n + 576))
  {
  }

  lemma BlackMakeUp1088(n: nat)
    requires n < 8
    ensures |BLACK_MAKE_UP_1088| == 8 && IsWord(false, BLACK_MAKE_UP_1088[n], M(64 * n + 1088))
  {
  }

  lemma BlackMakeUp1600(n: nat)
    requires n < 8
    ensures |BLACK_MAKE_UP_1600| == 8 && IsWord(false, BLACK_MAKE_UP_1600[n], M(64 * n + 1600))
  {
  }

  lemma BlackMakeUp2112(n: nat)
    requires n < 8
    ensures |BLACK_MAKE_UP_2112| == 8 && IsWord(false, BLACK_MAKE_UP_2112[n], M(64 * n + 2112))
  {
  }

  lemma WordInRow(rows: seq<seq<string>>, n: nat)
    requires n / 8 < |rows| && n % 8 < |rows[n / 8]|
    ensures WordAt(rows, n) == rows[n / 8][n % 8]
  {
  }

  lemma WhiteWord(n: nat)
    requires n < 64
    ensures IsWord(true, WordAt(WHITE_ROWS, n), T(n))
  {
    hide IsWord, WordAt;
    var k := n % 8;
    assert n == 8 * (n / 8) + k;
    WordInRow(WHITE_ROWS, n);
    if n < 8 { White0(k); } else if n < 16 { White8(k); } else if n < 24 { White16(k); }
    else if n < 32 { White24(k); } else if n < 40 { White32(k); } else if n < 48 { White40(k); }
    else if n < 56 { White48(k); } else { White56(k); }
  }

  lemma BlackWord(n: nat)
    requires n < 64
    ensures IsWord(false, WordAt(BLACK_ROWS, n), T(n))
  {
    hide IsWord, WordAt;
    var k := n % 8;
    assert n == 8 * (n / 8) + k;
    WordInRow(BLACK_ROWS, n);
    if n < 8 { Black0(k); } else if n < 16 { Black8(k); } else if n < 24 { Black16(k); }
    else if n < 32 { Black24(k); } else if n < 40 { Black32(k); } else if n < 48 { Black40(k); }
    else if n < 56 { Black48(k); } else { Black56(k); }
  }

  lemma WhiteMakeUpWord(n: nat)
    requires n < 40
    ensures IsWord(true, WordAt(WHITE_MAKE_UP_ROWS, n), M(64 * n + 64))
  {
    hide IsWord, WordAt;
    var k := n % 8;
    assert n == 8 * (n / 8) + k;
    WordInRow(WHITE_MAKE_UP_ROWS, n);
    if n < 8 { WhiteMakeUp64(k); } else if n < 16 { WhiteMakeUp576(k); }
    else if n < 24 { WhiteMakeUp1088(k); } else if n < 32 { WhiteMakeUp1600(k); } else { WhiteMakeUp2112(k); }
  }

  lemma BlackMakeUpWord(n: nat)
    requires n < 40
    ensures IsWord(false, WordAt(BLACK_MAKE_UP_ROWS, n), M(64 * n + 64))
  {
    hide IsWord, WordAt;
    var k := n % 8;
    assert n == 8 * (n / 8) + k;
    WordInRow(BLACK_MAKE_UP_ROWS, n);
    if n < 8 { BlackMakeUp64(k); } else if n < 16 { BlackMakeUp576(k); }
    else if n < 24 { BlackMakeUp1088(k); } else if n < 32 { BlackMakeUp1600(k); } else { BlackMakeUp2112(k); }
  }

  /** The tables hold every code word of the standard: its bits lead to its run. */
  lemma WordsSpelled(white: bool, leaf: Tree)
    requires HasWord(leaf)
    ensures IsWord(white, Word(white, leaf), leaf)
  {
    hide IsWord, WordAt;
    if leaf.T? {
      WhiteWord(leaf.run);
      BlackWord(leaf.run);
    } else {
      var n := leaf.run / 64 - 1;
      assert leaf.run == 64 * n + 64;
      WhiteMakeUpWord(n);
      BlackMakeUpWord(n);
    }
  }

  // ---------------------------------------------------------------- looking up

  /** What an entry of a table holds: its leaf, and the bits it uses up, none if no code word fits. */
  datatype Entry = Entry(leaf: Tree, width: nat)

  function Longer(e: Entry): Entry {
    if e.leaf.Absent? then e else Entry(e.leaf, e.width + 1)
  }

  /** The entry at an index of `window` bits, of which the first is the lowest. */
  function TableEntry(t: Tree, index: nat, window: nat): Entry
    decreases window
  {
    if !t.Node? then Entry(t, 0)
    else if window == 0 then Entry(Absent, 0)
    else Longer(TableEntry(if index % 2 == 1 then t.one else t.zero, index / 2, window - 1))
  }

  /** The code word at the front of some bits. */
  function Front(t: Tree, s: seq<bool>): (e: Entry)
    ensures e.width <= |s|
  {
    if !t.Node? then Entry(t, 0)
    else if s == [] then Entry(Absent, 0)
    else Longer(Front(if s[0] then t.one else t.zero, s[1..]))
  }

  lemma ValueParts(s: seq<bool>)
    requires s != []
    ensures (Value(s) % 2 == 1) == s[0] && Value(s) / 2 == Value(s[1..])
  {
  }

  lemma {:induction false} TableIsFront(t: Tree, s: seq<bool>)
    ensures TableEntry(t, Value(s), |s|) == Front(t, s)
  {
    hide Value;
    if t.Node? && s != [] {
      ValueParts(s);
      TableIsFront(if s[0] then t.one else t.zero, s[1..]);
    }
  }

  lemma {:induction false} SpelledFront(t: Tree, w: string, i: nat, leaf: Tree, s: seq<bool>)
    requires i <= |w| && Spells(t, w, i, leaf) && !leaf.Node? && !leaf.Absent?
    requires |s| >= |w| - i && forall k :: i <= k < |w| ==> s[k - i] == (w[k] == '1')
    ensures Front(t, s) == Entry(leaf, |w| - i)
    decreases |w| - i
  {
    if i < |w| {
      assert s[0] == (w[i] == '1');
      SpelledFront(if s[0] then t.one else t.zero, w, i + 1, leaf, s[1..]);
    }
  }

  /** Bits that start with a code word are looked up as its run, whatever follows. */
  lemma WordFront(white: bool, leaf: Tree, s: seq<bool>)
    requires HasWord(leaf) && Digits(Word(white, leaf)) <= s
    ensures Front(TreeOf(white), s) == Entry(leaf, |Word(white, leaf)|)
    ensures 0 < |Word(white, leaf)| <= Window(white) - if leaf.T? then 1 else 0
  {
    hide Word, TreeOf;
    var w := Word(white, leaf);
    WordsSpelled(white, leaf);
    forall k | 0 <= k < |w| ensures s[k] == (w[k] == '1') { assert Digits(w)[k] == s[k]; }
    SpelledFront(TreeOf(white), w, 0, leaf, s);
    RootIsNode(white);
  }

  /** No code word begins another: bits that start with two words start with one. */
  lemma WordsOneWay(white: bool, a: Tree, b: Tree, s: seq<bool>)
    requires HasWord(a) && HasWord(b) && Digits(Word(white, a)) <= s && Digits(Word(white, b)) <= s
    ensures a == b
  {
    hide Word, TreeOf, Front, Window, HasWord;
    WordFront(white, a, s);
    WordFront(white, b, s);
  }

  lemma RootIsNode(white: bool)
    ensures TreeOf(white).Node?
  {
  }

  lemma ZerosSpellEol(white: bool)
    ensures Spells(TreeOf(white), "00000000000", 0, Eol)
  {
  }

  /** Nothing but zeros is the end-of-line code. */
  lemma ZerosFront(white: bool)
    ensures Front(TreeOf(white), Repeat(false, Window(white))) == Entry(Eol, 11)
  {
    hide TreeOf, Repeat;
    var s := Repeat(false, Window(white));
    ZerosSpellEol(white);
    SpelledFront(TreeOf(white), "00000000000", 0, Eol, s);
  }

  // ---------------------------------------------------------------- runs

  /** The codes of a run: make-up codes of 2560 while it is at least that long, then one make-up code if it needs one,
      and a terminating code. */
  function Leaves(run: nat): (leaves: seq<Tree>)
    ensures forall leaf :: leaf in leaves ==> HasWord(leaf)
  {
    if run >= 2560 then [M(2560)] + Leaves(run - 2560)
    else if run >= 64 then [M(run - run % 64), T(run % 64)]
    else [T(run)]
  }

  function LeafBits(white: bool, leaves: seq<Tree>): seq<bool>
    requires forall leaf :: leaf in leaves ==> HasWord(leaf)
  {
    if leaves == [] then [] else Digits(Word(white, leaves[0])) + LeafBits(white, leaves[1..])
  }

  /** The coding of a run. */
  function RunBits(white: bool, run: nat): seq<bool> {
    LeafBits(white, Leaves(run))
  }

  /** What a run read from a cursor is, or `None` if it cannot be read, and where that leaves the reader. */
  datatype RunRead = RunRead(run: Option<nat>, after: Cursor)

  function Ahead(data: seq<byte>, c: Cursor): nat {
    SaturatingSub(8 * |data|, c.pos)
  }

  /** The table entry at a cursor. */
  function LookUp(data: seq<byte>, pos: nat, white: bool): Entry {
    Front(TreeOf(white), Stream(data, pos, Window(white)))
  }

  lemma MakeUpAdvances(data: seq<byte>, pos: nat, white: bool)
    requires LookUp(data, pos, white).leaf.M?
    ensures pos < 8 * |data| && LookUp(data, pos, white).width > 0
  {
    hide TreeOf, Stream, Repeat;
    if pos >= 8 * |data| {
      StreamPastEnd(data, pos, Window(white));
      ZerosFront(white);
    }
    RootIsNode(white);
  }

  /** The rest of a run, `sofar` pixels of it read. */
  function ReadRun(data: seq<byte>, c: Cursor, white: bool, sofar: nat): RunRead
    decreases Ahead(data, c)
  {
    if c.pos == c.end then RunRead(None, c)
    else
      var e := LookUp(data, c.pos, white);
      var after := Past(c, e.width, Window(white));
      match e.leaf
      case T(run) => RunRead(Some(sofar + run), after)
      case M(run) =>
        MakeUpAdvances(data, c.pos, white);
        ReadRun(data, after, white, sofar + run)
      case _ => RunRead(None, after)
  }

  lemma ReadRunStep(data: seq<byte>, c: Cursor, white: bool, sofar: nat)
    requires c.pos != c.end
    ensures var e := LookUp(data, c.pos, white);
      var after := Past(c, e.width, Window(white));
      && (e.leaf.M? ==> Ahead(data, after) < Ahead(data, c))
      && ReadRun(data, c, white, sofar) ==
          if e.leaf.T? then RunRead(Some(sofar + e.leaf.run), after)
          else if e.leaf.M? then ReadRun(data, after, white, sofar + e.leaf.run)
          else RunRead(None, after)
  {
    hide LookUp;
    if LookUp(data, c.pos, white).leaf.M? {
      MakeUpAdvances(data, c.pos, white);
    }
  }

  /** `lookup_white` and `lookup_black` */
  method LookUpEntry(reader: BitReader, white: bool) returns (r: Option<Entry>)
    requires reader.Valid()
    modifies reader
    ensures reader.Valid()
    ensures r == if old(reader.IsAtEnd()) then None else Some(LookUp(reader.data, old(reader.pos), white))
    ensures At(reader) ==
      if r.None? then old(At(reader)) else Past(old(At(reader)), r.value.width, if white then 12 else 13)
  {
    hide Stream, Value, TreeOf, Front, TableEntry;
    var index := reader.PeekBits(Window(white));
    if index.None? {
      return None;
    }
    TableIsFront(TreeOf(white), Stream(reader.data, reader.pos, Window(white)));
    var entry := TableEntry(TreeOf(white), index.value, Window(white));
    FrontWidth(TreeOf(white), Stream(reader.data, reader.pos, Window(white)));
    reader.ConsumeBits(entry.width);
    return Some(entry);
  }

  lemma FrontWidth(t: Tree, s: seq<bool>)
    ensures Front(t, s).width <= |s|
  {
  }

  /** `decode_run`: make-up codes add up until a terminating code; anything else is an error. */
  method DecodeRun(reader: BitReader, white: bool) returns (r: Option<nat>)
    requires reader.Valid()
    modifies reader
    ensures reader.Valid()
    ensures RunRead(r, At(reader)) == ReadRun(reader.data, old(At(reader)), white, 0)
  {
    hide LookUp, ReadRun, Past;
    var run := 0;
    while true
      invariant reader.Valid()
      invariant ReadRun(reader.data, At(reader), white, run) == ReadRun(reader.data, old(At(reader)), white, 0)
      decreases Ahead(reader.data, At(reader))
    {
      AtEndExactly(reader);
      ghost var c := At(reader);
      var entry := LookUpEntry(reader, white);
      if entry.None? {
        ReadRunAtEnd(reader.data, c, white, run);
        return None;
      }
      ReadRunStep(reader.data, c, white, run);
      match entry.value.leaf {
        case T(n) => return Some(run + n);
        case M(n) => run := run + n;
        case _ => return None;
      }
    }
  }

  lemma ReadRunAtEnd(data: seq<byte>, c: Cursor, white: bool, sofar: nat)
    requires c.pos == c.end
    ensures ReadRun(data, c, white, sofar) == RunRead(None, c)
  {
  }

  /** Where reading the codes of a run takes the reader. */
  function AfterLeaves(c: Cursor, white: bool, leaves: seq<Tree>): (after: Cursor)
    requires forall leaf :: leaf in leaves ==> HasWord(leaf)
    ensures after.pos == c.pos + |LeafBits(white, leaves)| && after.end >= c.end
    decreases |leaves|
  {
    if leaves == [] then c
    else AfterLeaves(Past(c, |Word(white, leaves[0])|, Window(white)), white, leaves[1..])
  }

  function AfterRun(c: Cursor, white: bool, run: nat): Cursor {
    AfterLeaves(c, white, Leaves(run))
  }

  /** Reading the first of some codes. */
  lemma LeafReads(data: seq<byte>, c: Cursor, white: bool, leaf: Tree, sofar: nat)
    requires HasWord(leaf) && c.end >= 8 * |data| && Holds(data, c.pos, Digits(Word(white, leaf)))
    ensures c.pos != c.end && LookUp(data, c.pos, white) == Entry(leaf, |Word(white, leaf)|)
  {
    hide Word, TreeOf, Front, Stream;
    var w := Digits(Word(white, leaf));
    WordsShort(white, leaf);
    StreamSplit(data, c.pos, |w|, Window(white) - |w|);
    assert w <= Stream(data, c.pos, Window(white));
    WordFront(white, leaf, Stream(data, c.pos, Window(white)));
  }

  lemma WordsShort(white: bool, leaf: Tree)
    requires HasWord(leaf)
    ensures 0 < |Word(white, leaf)| <= Window(white) - if leaf.T? then 1 else 0
  {
    hide Word, TreeOf, Front, Window;
    WordFront(white, leaf, Digits(Word(white, leaf)));
  }

  /** Round trip: a run coded by the standard is read back from the data that holds its code, whatever follows. */
  lemma {:induction false} RunReads(data: seq<byte>, c: Cursor, white: bool, run: nat, sofar: nat)
    requires c.end >= 8 * |data| && Holds(data, c.pos, RunBits(white, run))
    ensures ReadRun(data, c, white, sofar) == RunRead(Some(sofar + run), AfterRun(c, white, run))
    decreases run
  {
    hide Word, LookUp, ReadRun, HasWord, Holds, Digits;
    LeavesStep(white, run, c);
    var leaf := Leaves(run)[0];
    HoldsBoth(data, c.pos, Digits(Word(white, leaf)), LeafBits(white, Leaves(run)[1..]));
    LeafReads(data, c, white, leaf, sofar);
    ReadRunStep(data, c, white, sofar);
    var after := Past(c, |Word(white, leaf)|, Window(white));
    if run >= 64 {
      RunReads(data, after, white, run - leaf.run, sofar + leaf.run);
    }
  }

  /** The codes of a run are one code, and those of the pixels that leaves. */
  lemma LeavesStep(white: bool, run: nat, c: Cursor)
    ensures var leaves := Leaves(run);
      && leaves != [] && HasWord(leaves[0]) && leaves[0].run <= run
      && RunBits(white, run) == Digits(Word(white, leaves[0])) + LeafBits(white, leaves[1..])
      && AfterRun(c, white, run) ==
          AfterLeaves(Past(c, |Word(white, leaves[0])|, Window(white)), white, leaves[1..])
      && (run < 64 ==> leaves == [T(run)])
      && (run >= 64 ==> leaves[0].M? && leaves[0].run >= 64 && leaves[1..] == Leaves(run - leaves[0].run))
  {
    hide Word;
  }

  /** A terminating code is shorter than the window, so the reader is left with bits it has looked at. */
  lemma {:induction false} RunLeavesBits(c: Cursor, white: bool, run: nat)
    ensures AfterRun(c, white, run).pos < AfterRun(c, white, run).end
    decreases run
  {
    hide Word, HasWord, Digits;
    LeavesStep(white, run, c);
    var leaf := Leaves(run)[0];
    WordsShort(white, leaf);
    if run >= 64 {
      RunLeavesBits(Past(c, |Word(white, leaf)|, Window(white)), white, run - leaf.run);
    }
  }
}
