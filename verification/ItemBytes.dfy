/** The part of an item that a replacement rewrites, as bytes: of a leaf item its data, of an
  * internal entry everything behind the type (db4/dbinc/db_page.h).  Padding bytes hold 0. */
module ItemBytes {
  import opened Bytes
  import opened SlottedPage

  const WORD: int := 0x1_0000_0000
  const B_OVERFLOW: byte := 3

  /** BINTERNAL from `unused` to `data`. */
  const HEADER: nat := 9
  const BOVERFLOW_SIZE: nat := 12

  /** A 32-bit field, least byte first. */
  function Word(n: int): (s: seq<byte>)
    requires 0 <= n < WORD
    ensures |s| == 4
  {
    [n % 0x100, n / 0x100 % 0x100, n / 0x1_0000 % 0x100, n / 0x100_0000]
  }

  function OfWord(s: seq<byte>): (n: nat)
    requires |s| == 4
    ensures n < WORD
  {
    var b: seq<int> := s;
    b[0] + 0x100 * b[1] + 0x1_0000 * b[2] + 0x100_0000 * b[3]
  }

  lemma WordRoundTrip(n: int)
    requires 0 <= n < WORD
    ensures OfWord(Word(n)) == n
  {
    var q, r := n / 0x100, n / 0x1_0000;
    assert n == 0x100 * q + n % 0x100;
    assert q == 0x100 * r + q % 0x100;
    assert r == 0x100 * (n / 0x100_0000) + r % 0x100;
  }

  lemma OfWordRoundTrip(s: seq<byte>)
    requires |s| == 4
    ensures Word(OfWord(s)) == s
  {
    var n := OfWord(s);
    var b: seq<int> := s;
    assert n / 0x100 == b[1] + 0x100 * b[2] + 0x1_0000 * b[3];
    assert n / 0x1_0000 == b[2] + 0x100 * b[3];
  }

  /** Items that are replaced in place, with fields that fit their place. */
  predicate Replaceable(item: Item) {
    match item
    case KeyData(_, _) => true
    case Child(pgno, nrecs, _) => pgno < WORD && 0 <= nrecs < WORD
    case BigChild(pgno, nrecs, first, tlen) => pgno < WORD && 0 <= nrecs < WORD && first < WORD && tlen < WORD
    case _ => false
  }

  function Body(item: Item): seq<byte>
    requires Replaceable(item)
  {
    match item
    case KeyData(_, data) => data
    case Child(pgno, nrecs, key) => Header(pgno, nrecs) + key
    case BigChild(pgno, nrecs, first, tlen) => Header(pgno, nrecs) + Overflow(first, tlen)
  }

  function Header(pgno: nat, nrecs: int): (s: seq<byte>)
    requires pgno < WORD && 0 <= nrecs < WORD
    ensures |s| == HEADER
  {
    [0] + Word(pgno) + Word(nrecs)
  }

  function Overflow(first: nat, tlen: nat): (s: seq<byte>)
    requires first < WORD && tlen < WORD
    ensures |s| == BOVERFLOW_SIZE
  {
    [0, 0, B_OVERFLOW, 0] + Word(first) + Word(tlen)
  }

  /** The type of an internal entry after a replacement: the flag changes it. */
  predicate Big(item: Item, typeflag: bool) {
    item.BigChild? != typeflag
  }

  /** The bytes are a body for the item. */
  predicate Fits(item: Item, typeflag: bool, body: seq<byte>) {
    && Replaceable(item)
    && (!item.KeyData? ==>
          && |body| >= HEADER && body[0] == 0
          && (Big(item, typeflag) ==>
                |body| == HEADER + BOVERFLOW_SIZE && body[HEADER..HEADER + 4] == [0, 0, B_OVERFLOW, 0]))
  }

  /** What `__bam_ritem` makes of an item. */
  function Remade(item: Item, typeflag: bool, body: seq<byte>): (r: Item)
    requires Fits(item, typeflag, body)
  {
    if item.KeyData? then KeyData(false, body)
    else
      var pgno, nrecs := OfWord(body[1..5]), OfWord(body[5..9]);
      if Big(item, typeflag) then BigChild(pgno, nrecs, OfWord(body[13..17]), OfWord(body[17..21]))
      else Child(pgno, nrecs, body[HEADER..])
  }

  /** The item a replacement can turn another into, with its flag. */
  predicate TurnsInto(item: Item, typeflag: bool, new': Item) {
    && Replaceable(item) && Replaceable(new')
    && if item.KeyData? then new'.KeyData? && !new'.deleted
       else !new'.KeyData? && (typeflag <==> new'.BigChild? != item.BigChild?)
  }

  lemma RemadeOfBody(item: Item, typeflag: bool, new': Item)
    requires TurnsInto(item, typeflag, new')
    ensures Fits(item, typeflag, Body(new')) && Remade(item, typeflag, Body(new')) == new'
  {
    hide Word, OfWord;
    match new'
    case KeyData(_, _) =>
    case Child(pgno, nrecs, key) =>
      HeaderParts(pgno, nrecs, key);
    case BigChild(pgno, nrecs, first, tlen) =>
      HeaderParts(pgno, nrecs, Overflow(first, tlen));
      OverflowParts(Header(pgno, nrecs), first, tlen);
  }

  lemma HeaderParts(pgno: nat, nrecs: int, rest: seq<byte>)
    requires pgno < WORD && 0 <= nrecs < WORD
    ensures var b := Header(pgno, nrecs) + rest;
            && b[0] == 0 && OfWord(b[1..5]) == pgno && OfWord(b[5..9]) == nrecs && b[HEADER..] == rest
  {
    hide Word, OfWord;
    var b := Header(pgno, nrecs) + rest;
    assert b[1..5] == Word(pgno) && b[5..9] == Word(nrecs);
    WordRoundTrip(pgno);
    WordRoundTrip(nrecs);
  }

  lemma OverflowParts(header: seq<byte>, first: nat, tlen: nat)
    requires |header| == HEADER && first < WORD && tlen < WORD
    ensures var b := header + Overflow(first, tlen);
            && b[HEADER..HEADER + 4] == [0, 0, B_OVERFLOW, 0]
            && OfWord(b[13..17]) == first && OfWord(b[17..21]) == tlen
  {
    hide Word, OfWord;
    var b := header + Overflow(first, tlen);
    assert b[13..17] == Word(first) && b[17..21] == Word(tlen);
    WordRoundTrip(first);
    WordRoundTrip(tlen);
  }

  lemma BodyOfRemade(item: Item, typeflag: bool, body: seq<byte>)
    requires Fits(item, typeflag, body)
    ensures var r := Remade(item, typeflag, body); TurnsInto(item, typeflag, r) && Body(r) == body
  {
    hide Word, OfWord;
    if !item.KeyData? {
      OfWordRoundTrip(body[1..5]);
      OfWordRoundTrip(body[5..9]);
      assert body[..HEADER] == [body[0]] + body[1..5] + body[5..9];
      if Big(item, typeflag) {
        OfWordRoundTrip(body[13..17]);
        OfWordRoundTrip(body[17..21]);
        assert body[HEADER..] == body[HEADER..HEADER + 4] + body[13..17] + body[17..21];
      }
    }
  }

  /** The same flag takes the item back. */
  lemma BackAgain(item: Item, typeflag: bool, new': Item)
    requires TurnsInto(item, typeflag, new')
    ensures Fits(new', typeflag, Body(item))
    ensures Remade(new', typeflag, Body(item)) == if item.KeyData? then KeyData(false, item.data) else item
  {
    if !item.KeyData? {
      RemadeOfBody(new', typeflag, item);
    }
  }

  /** An item takes its length and type, its body, and the padding to a multiple of four. */
  lemma SizeOfBody(item: Item)
    ensures Replaceable(item) ==> Size(item) == Align4(3 + |Body(item)|)
    ensures item.OffPage? ==> Size(item) == BOVERFLOW_SIZE
    ensures item.RecnoChild? && 0 <= item.nrecs < WORD && item.pgno < WORD ==>
              Size(item) == |Word(item.pgno) + Word(item.nrecs)|
  {
  }
}
