/** The two writers of the binary witness format: words into a shared buffer in JavaScript, sequential writes in C++. */
module WitnessFile {
  import opened PrimeField
  import opened Bytes

  const WTNS: seq<nat> := [0x77, 0x74, 0x6E, 0x73]  // "wtns"
  const WORD: nat := 0x1_0000_0000
  const LONG: nat := 0x1_0000_0000_0000_0000
  const INT_LIMIT: nat := 0x8000_0000              // of the C++ writer's loop counter
  const EXACT_LIMIT: nat := 0x20_0000_0000_0000    // below it JavaScript numbers are exact integers

  function Elements(wtns: seq<nat>, n8: nat): seq<nat> {
    if wtns == [] then []
    else Elements(wtns[..|wtns| - 1], n8) + LeBytes(wtns[|wtns| - 1], n8)
  }

  function Header(n8: nat, prime: nat, size: nat, length1: seq<nat>): seq<nat> {
    WTNS + LeBytes(2, 4) + LeBytes(2, 4) + LeBytes(1, 4) + length1 + LeBytes(n8, 4) + LeBytes(prime, n8)
    + LeBytes(size, 4) + LeBytes(2, 4)
  }

  /** The format, given the eight bytes each section length is written as. */
  function File(n8: nat, prime: nat, wtns: seq<nat>, length1: seq<nat>, length2: seq<nat>): seq<nat> {
    Header(n8, prime, |wtns|, length1) + length2 + Elements(wtns, n8)
  }

  /** Two words taken from the hexadecimal digits of the length. */
  function JsLength(n: nat): (bytes: seq<nat>)
    ensures |bytes| == 8
  {
    LeBytes(FirstSlice(n), 4) + LeBytes(SecondSlice(n), 4)
  }

  /** The length of the data section: count elements of n8 bytes. */
  function DataLength(n8: nat, count: nat): nat { n8 * count }

  /** So many rows of n32 words, kept as a repeated sum. */
  function Rows(count: nat, size: nat): nat {
    if count == 0 then 0 else Rows(count - 1, size) + size
  }

  lemma {:induction false} RowsIsProduct(count: nat, size: nat)
    ensures Rows(count, size) == count * size
  {
    if count > 0 {
      RowsIsProduct(count - 1, size);
      Distribute(count - 1, 1, size);
    }
  }

  function JsFile(n32: nat, prime: nat, wtns: seq<nat>): seq<nat> {
    var n8 := n32 * 4;
    File(n8, prime, wtns, JsLength(8 + n8), JsLength(DataLength(n8, |wtns|)))
  }

  function CppFile(n64: nat, prime: nat, wtns: seq<nat>): seq<nat> {
    var n8 := n64 * 8;
    File(n8, prime, wtns, LeBytes(8 + n8, 8), LeBytes(DataLength(n8, |wtns|), 8))
  }

  // ----- Field elements as machine words -----

  function Words(x: nat, n32: nat): (words: seq<nat>)
    ensures |words| == n32
  {
    if n32 == 0 then [] else [x % WORD] + Words(x / WORD, n32 - 1)
  }

  function LongWords(x: nat, n64: nat): (words: seq<nat>)
    ensures |words| == n64
  {
    if n64 == 0 then [] else [x % LONG] + LongWords(x / LONG, n64 - 1)
  }

  /** An array of words as it lies in the memory of a little-endian host. */
  function InMemory(words: seq<nat>, width: nat): seq<nat> {
    if words == [] then [] else LeBytes(words[0], width) + InMemory(words[1..], width)
  }

  lemma {:induction false} InMemoryLast(words: seq<nat>, width: nat, k: nat)
    requires k < |words|
    ensures InMemory(words[..k + 1], width) == InMemory(words[..k], width) + LeBytes(words[k], width)
  {
    if k == 0 {
      assert words[..1][1..] == [];
      assert [] + LeBytes(words[0], width) == LeBytes(words[0], width) + [];
    } else {
      assert words[..k + 1][1..] == words[1..][..k] && words[..k][1..] == words[1..][..k - 1];
      InMemoryLast(words[1..], width, k - 1);
      Reassociate(LeBytes(words[0], width), InMemory(words[1..][..k - 1], width), LeBytes(words[k], width));
    }
  }

  lemma OneMoreWord(front: seq<nat>, words: seq<nat>, width: nat, k: nat)
    requires k < |words|
    ensures front + InMemory(words[..k], width) + LeBytes(words[k], width) == front + InMemory(words[..k + 1], width)
  {
    InMemoryLast(words, width, k);
    Reassociate(front, InMemory(words[..k], width), LeBytes(words[k], width));
  }

  lemma Pow256Values()
    ensures Pow(256, 4) == WORD && Pow(256, 8) == LONG
  {
    assert Pow(256, 4) == 256 * Pow(256, 3);
    assert Pow(256, 8) == 256 * (256 * (256 * (256 * Pow(256, 4))));
  }

  /** 32-bit words in little-endian memory are the little-endian bytes of the number. */
  lemma {:induction false} WordsAreBytes(x: nat, n32: nat)
    ensures InMemory(Words(x, n32), 4) == LeBytes(x, n32 * 4)
  {
    if n32 > 0 {
      Pow256Values();
      WordsAreBytes(x / WORD, n32 - 1);
      assert x == x / WORD * Pow(256, 4) + x % WORD;
      LeBytesSplit(x / WORD, x % WORD, 4, (n32 - 1) * 4);
      assert Words(x, n32)[1..] == Words(x / WORD, n32 - 1);
    }
  }

  /** And so are 64-bit words. */
  lemma {:induction false} LongWordsAreBytes(x: nat, n64: nat)
    ensures InMemory(LongWords(x, n64), 8) == LeBytes(x, n64 * 8)
  {
    if n64 > 0 {
      Pow256Values();
      LongWordsAreBytes(x / LONG, n64 - 1);
      assert x == x / LONG * Pow(256, 8) + x % LONG;
      LeBytesSplit(x / LONG, x % LONG, 8, (n64 - 1) * 8);
      assert LongWords(x, n64)[1..] == LongWords(x / LONG, n64 - 1);
    }
  }

  lemma ElementsLast(wtns: seq<nat>, n8: nat, k: nat)
    requires k < |wtns|
    ensures Elements(wtns[..k + 1], n8) == Elements(wtns[..k], n8) + LeBytes(wtns[k], n8)
  {
    assert wtns[..k + 1][..k] == wtns[..k];
  }

  lemma OneMoreElement(front: seq<nat>, wtns: seq<nat>, n8: nat, k: nat)
    requires k < |wtns|
    ensures front + Elements(wtns[..k], n8) + LeBytes(wtns[k], n8) == front + Elements(wtns[..k + 1], n8)
  {
    ElementsLast(wtns, n8, k);
    Reassociate(front, Elements(wtns[..k], n8), LeBytes(wtns[k], n8));
  }

  // ----- JavaScript -----

  /** buff32[i] = v: four bytes of the buffer both views share. */
  method SetWord(buff: array<nat>, i: nat, v: nat)
    requires 4 * i + 4 <= buff.Length && v < WORD
    modifies buff
    ensures buff[..4 * i + 4] == old(buff[..4 * i]) + LeBytes(v, 4)
  {
    ghost var before := buff[..4 * i];
    var bytes := LeBytes(v, 4);
    buff[4 * i], buff[4 * i + 1], buff[4 * i + 2], buff[4 * i + 3] := bytes[0], bytes[1], bytes[2], bytes[3];
    assert buff[..4 * i] == before;
  }

  predicate AreWords(words: seq<nat>) {
    forall j :: 0 <= j < |words| ==> words[j] < WORD
  }

  /** Words one after another from a position on. */
  method SetWords(buff: array<nat>, pos: nat, words: seq<nat>)
    requires 4 * (pos + |words|) <= buff.Length && AreWords(words)
    modifies buff
    ensures buff[..4 * (pos + |words|)] == old(buff[..4 * pos]) + InMemory(words, 4)
  {
    ghost var before := buff[..4 * pos];
    var at := pos;
    for j := 0 to |words|
      invariant at == pos + j && buff[..4 * at] == before + InMemory(words[..j], 4)
    {
      OneMoreWord(before, words, 4, j);
      SetWord(buff, at, words[j]);
      at := at + 1;
    }
    assert words[..|words|] == words;
  }

  /** The inner loop: the words of one field element, read from shared memory in order. */
  method SetElement(buff: array<nat>, pos: nat, x: nat, n32: nat)
    requires 4 * (pos + n32) <= buff.Length
    modifies buff
    ensures buff[..4 * (pos + n32)] == old(buff[..4 * pos]) + LeBytes(x, n32 * 4)
  {
    WordsBounded(x, n32);
    WordsAreBytes(x, n32);
    SetWords(buff, pos, Words(x, n32));
  }

  lemma {:induction false} WordsBounded(x: nat, n32: nat)
    ensures AreWords(Words(x, n32))
  {
    if n32 > 0 { WordsBounded(x / WORD, n32 - 1); }
  }

  /** The two words of a section length. */
  method SetLength(buff: array<nat>, pos: nat, length: nat)
    requires 4 * pos + 8 <= buff.Length
    modifies buff
    ensures buff[..4 * pos + 8] == old(buff[..4 * pos]) + JsLength(length)
  {
    ghost var before := buff[..4 * pos];
    SetWord(buff, pos, FirstSlice(length));
    SetWord(buff, pos + 1, SecondSlice(length));
    Reassociate(before, LeBytes(FirstSlice(length), 4), LeBytes(SecondSlice(length), 4));
  }

  /** The first seven words. */
  method SetFront(buff: array<nat>, n8: nat)
    requires buff.Length >= 28 && n8 < WORD
    modifies buff
    ensures buff[..28] == WTNS + LeBytes(2, 4) + LeBytes(2, 4) + LeBytes(1, 4) + JsLength(8 + n8) + LeBytes(n8, 4)
  {
    buff[0], buff[1], buff[2], buff[3] := 0x77, 0x74, 0x6E, 0x73;
    assert buff[..4] == WTNS;
    SetWord(buff, 1, 2);
    SetWord(buff, 2, 2);
    SetWord(buff, 3, 1);
    SetLength(buff, 4, 8 + n8);
    SetWord(buff, 6, n8);
  }

  /** Everything before the data. */
  method SetHeader(buff: array<nat>, n32: nat, prime: nat, size: nat, length2: nat) returns (pos: nat)
    requires buff.Length >= 4 * (n32 + 11) && n32 * 4 < WORD && size < WORD
    modifies buff
    ensures pos == n32 + 11
    ensures buff[..4 * pos] == Header(n32 * 4, prime, size, JsLength(8 + n32 * 4)) + JsLength(length2)
  {
    SetFront(buff, n32 * 4);
    SetElement(buff, 7, prime, n32);
    pos := 7 + n32;
    SetWord(buff, pos, size);
    pos := pos + 1;
    SetWord(buff, pos, 2);
    pos := pos + 1;
    SetLength(buff, pos, length2);
    pos := pos + 2;
  }

  lemma {:induction false} RowsGrow(i: nat, rows: nat, n32: nat)
    requires i <= rows
    ensures Rows(i, n32) <= Rows(rows, n32)
  {
    if i < rows { RowsGrow(i, rows - 1, n32); }
  }

  /** The data section: one element after another, up to the very end of the buffer. */
  method FillData(buff: array<nat>, start: nat, wtns: seq<nat>, n32: nat)
    requires buff.Length == 4 * (start + Rows(|wtns|, n32))
    modifies buff
    ensures buff[..] == old(buff[..4 * start]) + Elements(wtns, n32 * 4)
  {
    ghost var front := buff[..4 * start];
    var pos, i := start, 0;
    while i < |wtns|
      invariant 0 <= i <= |wtns|
      invariant pos == start + Rows(i, n32) && 4 * pos <= buff.Length
      invariant buff[..4 * pos] == front + Elements(wtns[..i], n32 * 4)
    {
      RowsGrow(i + 1, |wtns|, n32);
      OneMoreElement(front, wtns, n32 * 4, i);
      SetElement(buff, pos, wtns[i], n32);
      pos := pos + n32;
      i := i + 1;
    }
    assert wtns[..i] == wtns && buff[..4 * pos] == buff[..];
  }

  /** The whole file: the buffer is filled exactly, each word once. */
  method CalculateWtnsBin(n32: nat, prime: nat, wtns: seq<nat>) returns (buff: array<nat>)
    requires n32 * 4 < WORD && |wtns| < WORD && DataLength(n32 * 4, |wtns|) < EXACT_LIMIT
    ensures buff.Length == 4 * (|wtns| * n32 + n32 + 11)
    ensures buff[..] == JsFile(n32, prime, wtns)
  {
    RowsIsProduct(|wtns|, n32);
    buff := new nat[4 * (|wtns| * n32 + n32 + 11)];
    var pos := SetHeader(buff, n32, prime, |wtns|, DataLength(n32 * 4, |wtns|));
    FillData(buff, pos, wtns, n32);
  }

  // ----- C++ -----

  /** One field element, as its 64-bit words lie in memory. */
  method WriteElement(file: seq<nat>, x: nat, n64: nat) returns (longer: seq<nat>)
    ensures longer == file + LeBytes(x, n64 * 8)
  {
    LongWordsAreBytes(x, n64);
    longer := file + InMemory(LongWords(x, n64), 8);
  }

  /** The writes before the data. */
  method WriteHeader(n64: nat, prime: nat, nVars: nat, length2: nat) returns (file: seq<nat>)
    ensures file == Header(n64 * 8, prime, nVars, LeBytes(8 + n64 * 8, 8)) + LeBytes(length2, 8)
  {
    file := WTNS;
    file := file + LeBytes(2, 4);
    file := file + LeBytes(2, 4);
    file := file + LeBytes(1, 4);
    var n8 := n64 * 8;
    file := file + LeBytes(8 + n8, 8);
    file := file + LeBytes(n8, 4);
    file := WriteElement(file, prime, n64);
    file := file + LeBytes(nVars, 4);
    file := file + LeBytes(2, 4);
    file := file + LeBytes(length2, 8);
  }

  /** The loop over the elements. */
  method WriteElements(file: seq<nat>, wtns: seq<nat>, n64: nat) returns (longer: seq<nat>)
    requires |wtns| < INT_LIMIT
    ensures longer == file + Elements(wtns, n64 * 8)
  {
    longer := file;
    for i := 0 to |wtns|
      invariant longer == file + Elements(wtns[..i], n64 * 8)
    {
      OneMoreElement(file, wtns, n64 * 8, i);
      longer := WriteElement(longer, wtns[i], n64);
    }
    assert wtns[..|wtns|] == wtns;
  }

  /** The sequence of writes to the output file. */
  method WriteBinWitness(n64: nat, prime: nat, wtns: seq<nat>) returns (file: seq<nat>)
    requires n64 * 8 < WORD && |wtns| < INT_LIMIT
    ensures file == CppFile(n64, prime, wtns)
  {
    var n8 := n64 * 8;
    file := WriteHeader(n64, prime, |wtns|, DataLength(n8, |wtns|));
    file := WriteElements(file, wtns, n64);
  }

  // ----- The same file -----

  lemma ShortLengthsAgree(n: nat)
    requires n < WORD
    ensures JsLength(n) == LeBytes(n, 8)
  {
    SlicesOfShort(n);
    Pow256Values();
    LeBytesSplit(0, n, 4, 4);
    assert 0 * Pow(256, 4) + n == n;
  }

  /** Cut after its first eight hexadecimal digits or before its last eight, n gives the same two parts. */
  predicate SameEitherWay(n: nat) {
    |ToHex(n)| > 8 && n / Pow(16, |ToHex(n)| - 8) == n % WORD && n % Pow(16, |ToHex(n)| - 8) == n / WORD
  }

  lemma WordsOfLong(n: nat)
    requires n < LONG
    ensures n / WORD < WORD && LeBytes(n, 8) == LeBytes(n % WORD, 4) + LeBytes(n / WORD, 4)
  {
    Pow256Values();
    LeBytesSplit(n / WORD, n % WORD, 4, 4);
    assert n / WORD * Pow(256, 4) + n % WORD == n;
  }

  lemma LongLengthsAgreeExactly(n: nat)
    requires WORD <= n < LONG
    ensures JsLength(n) == LeBytes(n, 8) <==> SameEitherWay(n)
  {
    SlicesOfLong(n);
    WordsOfLong(n);
    if JsLength(n) == LeBytes(n, 8) {
      PartsEqual(LeBytes(FirstSlice(n), 4), LeBytes(SecondSlice(n), 4), LeBytes(n % WORD, 4), LeBytes(n / WORD, 4));
      Pow256Values();
      LeBytesInjective(FirstSlice(n), n % WORD, 4);
      LeBytesInjective(SecondSlice(n), n / WORD, 4);
    }
  }

  lemma PartsEqual(a: seq<nat>, b: seq<nat>, c: seq<nat>, d: seq<nat>)
    requires |a| == |c| && a + b == c + d
    ensures a == c && b == d
  {
    assert (a + b)[..|a|] == a && (c + d)[..|a|] == c;
    assert (a + b)[|a|..] == b && (c + d)[|a|..] == d;
  }

  /** For any field size the two writers emit the same bytes as long as the data section is under 2^32 bytes. */
  lemma WritersAgree(n64: nat, prime: nat, wtns: seq<nat>)
    requires 8 + n64 * 8 < WORD && DataLength(n64 * 8, |wtns|) < WORD
    ensures JsFile(n64 * 2, prime, wtns) == CppFile(n64, prime, wtns)
  {
    InTermsOfBytes(n64, prime, wtns);
    ShortLengthsAgree(8 + n64 * 8);
    ShortLengthsAgree(DataLength(n64 * 8, |wtns|));
  }

  lemma InTermsOfBytes(n64: nat, prime: nat, wtns: seq<nat>)
    ensures var n8 := n64 * 8;
            JsFile(n64 * 2, prime, wtns) == File(n8, prime, wtns, JsLength(8 + n8), JsLength(DataLength(n8, |wtns|)))
  {
    assert n64 * 2 * 4 == n64 * 8;
  }

  /** Two files that differ at most in the second length. */
  lemma SecondLengthDecides(header: seq<nat>, a: seq<nat>, b: seq<nat>, data: seq<nat>)
    requires |a| == |b|
    ensures header + a + data == header + b + data <==> a == b
  {
    var x, y, n := header + a + data, header + b + data, |header|;
    assert x[n..n + |a|] == a && y[n..n + |a|] == b;
  }

  /** From 2^32 bytes on they agree exactly when the length of the data section happens to read the same either way. */
  lemma LongWritersAgreeExactly(n64: nat, prime: nat, wtns: seq<nat>)
    requires 8 + n64 * 8 < WORD && |wtns| < INT_LIMIT && WORD <= DataLength(n64 * 8, |wtns|) < EXACT_LIMIT
    ensures JsFile(n64 * 2, prime, wtns) == CppFile(n64, prime, wtns) <==> SameEitherWay(DataLength(n64 * 8, |wtns|))
  {
    var n8, n := n64 * 8, DataLength(n64 * 8, |wtns|);
    InTermsOfBytes(n64, prime, wtns);
    ShortLengthsAgree(8 + n8);
    LongLengthsAgreeExactly(n);
    SecondLengthDecides(Header(n8, prime, |wtns|, LeBytes(8 + n8, 8)), JsLength(n), LeBytes(n, 8), Elements(wtns, n8));
  }

  /** With the four limbs of the circuits' field that never happens: the files are equal exactly below 2^32 bytes. */
  lemma FourLimbWritersAgreeExactly(prime: nat, wtns: seq<nat>)
    requires |wtns| < INT_LIMIT
    ensures JsFile(8, prime, wtns) == CppFile(4, prime, wtns) <==> 32 * |wtns| < WORD
  {
    var n := DataLength(32, |wtns|);
    if n < WORD {
      WritersAgree(4, prime, wtns);
    } else {
      LongWritersAgreeExactly(4, prime, wtns);
      Pow16Values();
      HexLength(n, 8);
      HexLength(n, 9);
      RemainderUnique(n, 2 * |wtns|, 0, 16);
      assert n % Pow(16, |ToHex(n)| - 8) == 0 < n / WORD;
    }
  }

  /** With three limbs it does, for one, when the length is written with nine eights. */
  lemma ThreeLimbWritersMeetAgain(prime: nat, wtns: seq<nat>)
    requires |wtns| == 1527099483
    ensures 24 * |wtns| == 0x8_8888_8888 && JsFile(6, prime, wtns) == CppFile(3, prime, wtns)
  {
    var n: nat := 0x8_8888_8888;
    Pow16Values();
    HexLength(n, 8);
    HexLength(n, 9);
    LongWritersAgreeExactly(3, prime, wtns);
  }

  // ----- The file, byte by byte -----

  lemma SmallBytes()
    ensures LeBytes(1, 4) == [1, 0, 0, 0] && LeBytes(2, 4) == [2, 0, 0, 0]
  {
    assert LeBytes(0, 3) == [0] + LeBytes(0, 2) && LeBytes(0, 2) == [0] + LeBytes(0, 1) && LeBytes(0, 1) == [0] + LeBytes(0, 0);
    assert LeBytes(1, 4) == [1] + LeBytes(0, 3) && LeBytes(2, 4) == [2] + LeBytes(0, 3);
  }

  /** The number a sequence of bytes stands for, least significant first. */
  function FromBytes(bytes: seq<nat>): nat {
    if bytes == [] then 0 else bytes[0] + 256 * FromBytes(bytes[1..])
  }

  lemma {:induction false} BytesStandFor(x: nat, n: nat)
    requires x < Pow(256, n)
    ensures FromBytes(LeBytes(x, n)) == x && forall i :: 0 <= i < n ==> LeBytes(x, n)[i] < 256
  {
    if n > 0 {
      BytesStandFor(x / 256, n - 1);
      assert LeBytes(x, n)[1..] == LeBytes(x / 256, n - 1);
    }
  }

  lemma {:induction false} ElementsOfPrefix(wtns: seq<nat>, n8: nat, k: nat)
    requires k <= |wtns|
    ensures Elements(wtns[..k], n8) <= Elements(wtns, n8)
    decreases |wtns| - k
  {
    if k < |wtns| {
      ElementsOfPrefix(wtns, n8, k + 1);
      ElementsLast(wtns, n8, k);
    } else {
      assert wtns[..k] == wtns;
    }
  }

  /** Every element stands right after the elements before it. */
  lemma ElementAt(wtns: seq<nat>, n8: nat, i: nat)
    requires i < |wtns|
    ensures var at := |Elements(wtns[..i], n8)|;
            at + n8 <= |Elements(wtns, n8)| && Elements(wtns, n8)[at..at + n8] == LeBytes(wtns[i], n8)
  {
    ElementsLast(wtns, n8, i);
    ElementsOfPrefix(wtns, n8, i + 1);
    EndOfPrefix(Elements(wtns[..i], n8), LeBytes(wtns[i], n8), Elements(wtns, n8));
  }

  lemma EndOfPrefix(a: seq<nat>, b: seq<nat>, c: seq<nat>)
    requires a + b <= c
    ensures |a| + |b| <= |c| && c[|a|..|a| + |b|] == b
  {
    assert c[..|a| + |b|] == a + b;
  }

  lemma {:induction false} ElementsLength(wtns: seq<nat>, n8: nat)
    ensures |Elements(wtns, n8)| == Rows(|wtns|, n8)
  {
    if wtns != [] { ElementsLength(wtns[..|wtns| - 1], n8); }
  }

  lemma DataLengthIsRows(n8: nat, count: nat)
    ensures DataLength(n8, count) == Rows(count, n8)
  {
    RowsIsProduct(count, n8);
  }

  lemma SliceOfFront(a: seq<nat>, b: seq<nat>, from: nat, to: nat)
    requires from <= to <= |a|
    ensures (a + b)[from..to] == a[from..to]
  {
  }

  /** The fields before the data, by offset. */
  lemma FrontOfFile(n8: nat, prime: nat, wtns: seq<nat>, length1: seq<nat>, length2: seq<nat>)
    requires |length1| == |length2| == 8
    ensures var file := File(n8, prime, wtns, length1, length2);
            && |file| == n8 + 44 + Rows(|wtns|, n8)
            && file[0..4] == [0x77, 0x74, 0x6E, 0x73] && file[4..8] == [2, 0, 0, 0]
            && file[8..12] == [2, 0, 0, 0] && file[12..16] == [1, 0, 0, 0]
            && file[16..24] == length1 && file[24..28] == LeBytes(n8, 4)
  {
    SmallBytes();
    ElementsLength(wtns, n8);
    var front := WTNS + LeBytes(2, 4) + LeBytes(2, 4) + LeBytes(1, 4) + length1 + LeBytes(n8, 4);
    var file := File(n8, prime, wtns, length1, length2);
    SixParts(WTNS, LeBytes(2, 4), LeBytes(2, 4), LeBytes(1, 4), length1, LeBytes(n8, 4));
    FrontComesFirst(front, LeBytes(prime, n8), LeBytes(|wtns|, 4), LeBytes(2, 4), length2, Elements(wtns, n8));
    SliceOfFront(front, file[28..], 0, 4);
    SliceOfFront(front, file[28..], 4, 8);
    SliceOfFront(front, file[28..], 8, 12);
    SliceOfFront(front, file[28..], 12, 16);
    SliceOfFront(front, file[28..], 16, 24);
    SliceOfFront(front, file[28..], 24, 28);
  }

  lemma FrontComesFirst(a: seq<nat>, b: seq<nat>, c: seq<nat>, d: seq<nat>, e: seq<nat>, f: seq<nat>)
    ensures var all := a + b + c + d + e + f;
            |all| == |a| + |b| + |c| + |d| + |e| + |f| && all == a + all[|a|..]
  {
    var all := a + b + c + d + e + f;
    assert all[..|a|] == a;
  }

  lemma BackOfFile(n8: nat, prime: nat, wtns: seq<nat>, length1: seq<nat>, length2: seq<nat>)
    requires |length1| == |length2| == 8
    ensures var file := File(n8, prime, wtns, length1, length2);
            && |file| >= n8 + 44
            && file[28..n8 + 28] == LeBytes(prime, n8) && file[n8 + 28..n8 + 32] == LeBytes(|wtns|, 4)
            && file[n8 + 32..n8 + 36] == [2, 0, 0, 0] && file[n8 + 36..n8 + 44] == length2
            && file[n8 + 44..] == Elements(wtns, n8)
  {
    SmallBytes();
    var front := WTNS + LeBytes(2, 4) + LeBytes(2, 4) + LeBytes(1, 4) + length1 + LeBytes(n8, 4);
    assert |front| == 28;
    SixParts(front, LeBytes(prime, n8), LeBytes(|wtns|, 4), LeBytes(2, 4), length2, Elements(wtns, n8));
  }

  lemma SixParts(a: seq<nat>, b: seq<nat>, c: seq<nat>, d: seq<nat>, e: seq<nat>, f: seq<nat>)
    ensures var all, i := a + b + c + d + e + f, |a|;
            var j := i + |b|;
            var k := j + |c|;
            var l := k + |d|;
            var m := l + |e|;
            |all| == m + |f| && all[i..j] == b && all[j..k] == c && all[k..l] == d && all[l..m] == e && all[m..] == f
  {
  }

  /** The C++ writer's file is that file, its two lengths being those of what follows them. */
  lemma CppFileLengths(n64: nat, prime: nat, wtns: seq<nat>)
    ensures CppFile(n64, prime, wtns)
         == File(n64 * 8, prime, wtns, LeBytes(n64 * 8 + 8, 8), LeBytes(Rows(|wtns|, n64 * 8), 8))
  {
    DataLengthIsRows(n64 * 8, |wtns|);
  }

  lemma DataComesLast(n8: nat, prime: nat, wtns: seq<nat>, length1: seq<nat>, length2: seq<nat>)
    requires |length1| == |length2| == 8
    ensures var file := File(n8, prime, wtns, length1, length2);
            |file| >= n8 + 44 && file[n8 + 44..] == Elements(wtns, n8)
  {
    BackOfFile(n8, prime, wtns, length1, length2);
  }

  lemma ElementAtRow(wtns: seq<nat>, n8: nat, i: nat)
    requires i < |wtns|
    ensures var at := Rows(i, n8);
            at + n8 <= |Elements(wtns, n8)| && Elements(wtns, n8)[at..at + n8] == LeBytes(wtns[i], n8)
  {
    ElementAt(wtns, n8, i);
    ElementsLength(wtns[..i], n8);
  }

  /** And every element in its place, after n8 + 44 bytes and n8 bytes for each of the elements before it. */
  lemma ElementInFile(n8: nat, prime: nat, wtns: seq<nat>, length1: seq<nat>, length2: seq<nat>, i: nat)
    requires |length1| == |length2| == 8 && i < |wtns|
    ensures var file, at := File(n8, prime, wtns, length1, length2), n8 + 44 + Rows(i, n8);
            at + n8 <= |file| && file[at..at + n8] == LeBytes(wtns[i], n8)
  {
    DataComesLast(n8, prime, wtns, length1, length2);
    ElementAtRow(wtns, n8, i);
    InTail(File(n8, prime, wtns, length1, length2), n8 + 44, Elements(wtns, n8), Rows(i, n8), LeBytes(wtns[i], n8));
  }

  lemma InTail(a: seq<nat>, start: nat, tail: seq<nat>, at: nat, x: seq<nat>)
    requires start <= |a| && a[start..] == tail && at + |x| <= |tail| && tail[at..at + |x|] == x
    ensures start + at + |x| <= |a| && a[start + at..start + at + |x|] == x
  {
    assert a[start + at..start + at + |x|] == a[start..][at..at + |x|];
  }
}
