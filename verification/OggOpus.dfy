/**
 The length of an Opus stream in an Ogg container, found by walking its pages (section 6
 of RFC 3533): a page has a header of 27 bytes with a granule position, a table of segment
 sizes, and the segments. The largest granule position is the length in samples at 48 kHz
 (section 4 of RFC 7845).
 */
module OggOpus {
  import opened ByteStreams

  const HEADER := 27
  const CAPTURE: seq<Byte> := [0x4F, 0x67, 0x67, 0x53]
  const RATE := 48000.0

  function Max(a: int, b: int): int {
    if a < b then b else a
  }

  // ------------------------------------------------------------ little-endian words

  function Power(n: nat): nat {
    if n == 0 then 1 else 256 * Power(n - 1)
  }

  function Word(bytes: seq<Byte>): nat {
    if bytes == [] then 0 else bytes[0] + 256 * Word(bytes[1..])
  }

  function LittleEndian(value: nat, n: nat): (bytes: seq<Byte>)
    ensures |bytes| == n
  {
    if n == 0 then [] else [value % 256] + LittleEndian(value / 256, n - 1)
  }

  lemma {:induction false} WordOfLittleEndian(value: nat, n: nat)
    requires value < Power(n)
    ensures Word(LittleEndian(value, n)) == value
  {
    if n > 0 {
      WordOfLittleEndian(value / 256, n - 1);
      assert LittleEndian(value, n)[1..] == LittleEndian(value / 256, n - 1);
    }
  }

  const TWO_63 := 0x8000_0000_0000_0000
  const TWO_64 := 0x1_0000_0000_0000_0000

  /** A 64-bit word read as a signed number. */
  function Signed(word: nat): int {
    if word < TWO_63 then word else word - TWO_64
  }

  function Unsigned(value: int): nat
    requires -TWO_63 <= value < TWO_63
  {
    if value < 0 then value + TWO_64 else value
  }

  // -------------------------------------------------------------------- the walk

  function Total(sizes: seq<Byte>): nat {
    if sizes == [] then 0 else Total(sizes[..|sizes| - 1]) + sizes[|sizes| - 1]
  }

  function Granule(s: seq<Byte>): int
    requires HEADER <= |s|
  {
    Signed(Word(s[6..14]))
  }

  predicate Captures(s: seq<Byte>)
    requires HEADER <= |s|
  {
    s[..4] == CAPTURE
  }

  /** How far the walk goes on: one byte if no page begins here, to the end if the table is cut off. */
  function Jump(s: seq<Byte>): (n: nat)
    requires HEADER <= |s|
    ensures n > 0
  {
    if !Captures(s) then 1
    else if |s| < HEADER + s[26] then |s|
    else HEADER + s[26] + Total(s[HEADER..HEADER + s[26]])
  }

  /** What is left from a position, which can be beyond the end. */
  function Rest(s: seq<Byte>, position: nat): (rest: seq<Byte>)
    ensures |rest| == if position < |s| then |s| - position else 0
  {
    s[Min(position, |s|)..]
  }

  /** The positions that are taken for starts of pages. */
  function Starts(s: seq<Byte>, at: nat): seq<nat>
    decreases |s|
  {
    if |s| < HEADER then []
    else (if Captures(s) then [at] else []) + Starts(Rest(s, Jump(s)), at + Jump(s))
  }

  function Better(s: seq<Byte>, best: int): int
    requires HEADER <= |s|
  {
    if Captures(s) then Max(best, Granule(s)) else best
  }

  /** The largest granule position on the way, or the one so far. */
  function Largest(s: seq<Byte>, best: int): int
    decreases |s|
  {
    if |s| < HEADER then best else Largest(Rest(s, Jump(s)), Better(s, best))
  }

  lemma RestOfRest(s: seq<Byte>, position: nat, more: nat)
    ensures Rest(Rest(s, position), more) == Rest(s, position + more)
  {
  }

  /** The header alone tells whether a page begins, its granule and the size of its table. */
  lemma HeaderTells(s: seq<Byte>)
    requires HEADER <= |s|
    ensures Captures(s[..HEADER]) == Captures(s) && Granule(s[..HEADER]) == Granule(s) && s[..HEADER][26] == s[26]
  {
    assert s[..HEADER][..4] == s[..4];
    assert s[..HEADER][6..14] == s[6..14];
  }

  lemma ReadIsHeader(s: seq<Byte>, cursor: nat, n: nat)
    ensures Chunk(Body(s, cursor, false), n) == Rest(s, cursor)[..Min(n, |Rest(s, cursor)|)]
  {
  }

  /** The size of a page: its header, its table and its segments. */
  method PageSize(table: seq<Byte>) returns (size: nat)
    ensures size == Total(table)
  {
    size := 0;
    for i := 0 to |table|
      invariant size == Total(table[..i])
    {
      assert table[..i + 1][..i] == table[..i];
      size := size + table[i];
    }
    assert table[..|table|] == table;
  }

  /** The length in seconds; a stream that cannot be read is an error. */
  method GetOpusDuration(r: Descriptor) returns (duration: Result<real>)
    modifies r
    ensures r.closed == old(r.closed)
    ensures duration == if old(r.closed) then Fail(FileClosed) else Ok(Largest(r.content, 0) as real / 48000.0)
  {
    hide Captures, Granule, Word, Total, Chunk, Rest;
    var start := r.Seek(0, Start);
    if start.Fail? {
      return Fail(start.error);
    }
    var total := 0;
    assert Rest(r.content, 0) == r.content by { RestOfAll(r.content); }
    while true
      invariant !r.closed
      invariant Largest(Rest(r.content, r.cursor), total) == Largest(r.content, 0)
      decreases |Rest(r.content, r.cursor)|
    {
      ghost var position, rest := r.cursor, Rest(r.content, r.cursor);
      ReadIsHeader(r.content, position, HEADER);
      var buf := r.Read(HEADER);
      if buf.Fail? || |buf.value| < HEADER {
        break;
      }
      HeaderTells(rest);
      RestOfRest(r.content, position, Jump(rest));
      if !Captures(buf.value) {
        var _ := r.Seek(-26, Current);
        continue;
      }
      var granule := Granule(buf.value);
      if granule > total {
        total := granule;
      }
      var segments := buf.value[26];
      ReadIsHeader(r.content, r.cursor, segments);
      RestOfRest(r.content, position, HEADER);
      TableIsRead(rest);
      var table := r.ReadFull(segments);
      if table.Fail? {
        break;
      }
      var size := PageSize(table.value);
      var _ := r.Seek(size, Current);
    }
    duration := Ok(total as real / RATE);
  }

  lemma RestOfAll(s: seq<Byte>)
    ensures Rest(s, 0) == s
  {
  }

  /** After the header comes the table; without it nothing is left. */
  lemma TableIsRead(s: seq<Byte>)
    requires HEADER <= |s| && Captures(s)
    ensures var after := Rest(s, HEADER);
      if |after| < s[26] then Rest(s, Jump(s)) == []
      else Jump(s) == HEADER + s[26] + Total(after[..s[26]])
  {
    if HEADER + s[26] <= |s| {
      assert Rest(s, HEADER)[..s[26]] == s[HEADER..HEADER + s[26]];
    }
  }

  // ---------------------------------------------------------------- what it finds

  /** A page could begin here. */
  ghost predicate PageAt(s: seq<Byte>, p: nat) {
    p + HEADER <= |s| && Captures(s[p..])
  }

  /** Whatever the bytes, the walk stops only where a page could begin. */
  lemma {:induction false} StartsArePages(s: seq<Byte>, at: nat)
    requires at <= |s|
    ensures forall p :: p in Starts(s[at..], at) ==> at <= p && PageAt(s, p)
    decreases |s| - at
  {
    hide Captures, Jump;
    var rest := s[at..];
    if HEADER <= |rest| && at + Jump(rest) <= |s| {
      StartsArePages(s, at + Jump(rest));
      assert Rest(rest, Jump(rest)) == s[at + Jump(rest)..];
    }
  }

  /** And the result is the best of zero and the granules there. */
  lemma {:induction false} LargestOfStarts(s: seq<Byte>, at: nat, best: int)
    requires at <= |s|
    ensures best <= Largest(s[at..], best)
    ensures forall p :: p in Starts(s[at..], at) && PageAt(s, p) ==> Granule(s[p..]) <= Largest(s[at..], best)
    ensures Largest(s[at..], best) == best
         || exists p :: p in Starts(s[at..], at) && PageAt(s, p) && Granule(s[p..]) == Largest(s[at..], best)
    decreases |s| - at
  {
    hide Captures, Jump, Granule;
    var rest := s[at..];
    if HEADER <= |rest| {
      if Captures(rest) {
        assert at in Starts(rest, at) && PageAt(s, at);
      }
      if at + Jump(rest) <= |s| {
        LargestOfStarts(s, at + Jump(rest), Better(rest, best));
        assert Rest(rest, Jump(rest)) == s[at + Jump(rest)..];
      }
    }
  }

  // ------------------------------------------------------------- well-formed pages

  /** A page: the fields of its header, its segment table and its segments. */
  datatype Page = Page(fields: seq<Byte>, granule: int, more: seq<Byte>, table: seq<Byte>, payload: seq<Byte>)

  predicate WellFormed(p: Page) {
    && |p.fields| == 2 && |p.more| == 12 && |p.table| < 256 && |p.payload| == Total(p.table)
    && -TWO_63 <= p.granule < TWO_63
  }

  function Encode(p: Page): (s: seq<Byte>)
    requires WellFormed(p)
    ensures |s| == HEADER + |p.table| + |p.payload|
  {
    [0x4F, 0x67, 0x67, 0x53] + p.fields + LittleEndian(Unsigned(p.granule), 8) + p.more
    + [|p.table|] + p.table + p.payload
  }

  function EncodeAll(pages: seq<Page>): seq<Byte>
    requires forall p :: p in pages ==> WellFormed(p)
  {
    if pages == [] then [] else Encode(pages[0]) + EncodeAll(pages[1..])
  }

  /** Where the pages begin when they are written one after the other. */
  function Offsets(pages: seq<Page>, at: nat): seq<nat>
    requires forall p :: p in pages ==> WellFormed(p)
  {
    if pages == [] then [] else [at] + Offsets(pages[1..], at + |Encode(pages[0])|)
  }

  function LargestGranule(pages: seq<Page>, best: int): int {
    if pages == [] then best else LargestGranule(pages[1..], Max(best, pages[0].granule))
  }

  lemma GranuleRoundTrip(granule: int)
    requires -TWO_63 <= granule < TWO_63
    ensures Signed(Word(LittleEndian(Unsigned(granule), 8))) == granule
  {
    assert Power(8) == TWO_64 by {
      assert Power(4) == 0x1_0000_0000;
    }
    WordOfLittleEndian(Unsigned(granule), 8);
  }

  /** At the start of a page the walk reads its granule and jumps to its end. */
  lemma PageIsRead(p: Page, rest: seq<Byte>)
    requires WellFormed(p)
    ensures var s := Encode(p) + rest;
      HEADER <= |s| && Captures(s) && Granule(s) == p.granule && Jump(s) == |Encode(p)| && Rest(s, Jump(s)) == rest
  {
    var s := Encode(p) + rest;
    var head, word := [0x4F, 0x67, 0x67, 0x53] + p.fields, LittleEndian(Unsigned(p.granule), 8);
    assert s[..4] == CAPTURE;
    assert s == head + word + (p.more + [|p.table|] + p.table + p.payload + rest);
    assert s[6..14] == word;
    GranuleRoundTrip(p.granule);
    assert s[26] == |p.table|;
    assert s[HEADER..HEADER + |p.table|] == p.table;
  }

  /** In bytes in which no page begins the walk finds nothing. */
  lemma {:induction false} WalkOfTail(tail: seq<Byte>, at: nat, best: int)
    requires forall i :: 0 <= i < |tail| ==> !PageAt(tail, i)
    ensures Starts(tail, at) == [] && Largest(tail, best) == best
    decreases |tail|
  {
    if HEADER <= |tail| {
      hide Captures;
      assert tail[0..] == tail && !PageAt(tail, 0);
      var rest := tail[1..];
      assert Rest(tail, 1) == rest;
      forall i | 0 <= i < |rest| ensures !PageAt(rest, i) {
        assert rest[i..] == tail[i + 1..];
        assert !PageAt(tail, i + 1);
      }
      WalkOfTail(rest, at + 1, best);
    }
  }

  /**
   On well-formed pages written one after the other the walk visits exactly their starts and
   takes their largest granule, and then goes on with whatever comes after them.
   */
  lemma {:induction false} WalkOfPages(pages: seq<Page>, s: seq<Byte>, at: nat, best: int)
    requires forall p :: p in pages ==> WellFormed(p)
    ensures Starts(EncodeAll(pages) + s, at) == Offsets(pages, at) + Starts(s, at + |EncodeAll(pages)|)
    ensures Largest(EncodeAll(pages) + s, best) == Largest(s, LargestGranule(pages, best))
    decreases |pages|
  {
    hide WellFormed, Encode, Captures, Granule, Jump, Rest;
    if pages == [] {
      assert EncodeAll(pages) + s == s;
    } else {
      var p, rest := pages[0], EncodeAll(pages[1..]) + s;
      assert EncodeAll(pages) + s == Encode(p) + rest;
      PageIsRead(p, rest);
      WalkOfPages(pages[1..], s, at + |Encode(p)|, Max(best, p.granule));
    }
  }

  /** The header is all that is read of a page for its granule. */
  lemma HeaderOfPage(p: Page, k: nat)
    requires WellFormed(p) && HEADER <= k <= |Encode(p)|
    ensures var s := Encode(p)[..k]; Captures(s) && Granule(s) == p.granule && s[26] == |p.table|
  {
    hide Encode, Captures, Granule;
    var s, whole := Encode(p)[..k], Encode(p) + [];
    assert whole == Encode(p);
    PageIsRead(p, []);
    HeaderTells(whole);
    HeaderTells(s);
    assert s[..HEADER] == whole[..HEADER];
    assert whole[26] == |p.table| by { TableSize(p); }
  }

  lemma TableSize(p: Page)
    requires WellFormed(p)
    ensures (Encode(p) + [])[26] == |p.table|
  {
    var head := [0x4F, 0x67, 0x67, 0x53] + p.fields + LittleEndian(Unsigned(p.granule), 8) + p.more;
    assert |head| == 26 && Encode(p) == head + ([|p.table|] + p.table + p.payload);
  }

  /** A page that is cut off after its header counts, and ends the walk. */
  lemma CutPageCounts(p: Page, k: nat, at: nat, best: int)
    requires WellFormed(p) && HEADER <= k < |Encode(p)|
    ensures Starts(Encode(p)[..k], at) == [at]
    ensures Largest(Encode(p)[..k], best) == Max(best, p.granule)
  {
    var s := Encode(p)[..k];
    HeaderOfPage(p, k);
    CutJump(p, k);
    hide Encode, Captures, Granule, Jump;
    assert Rest(s, Jump(s)) == [];
  }

  lemma CutJump(p: Page, k: nat)
    requires WellFormed(p) && HEADER <= k < |Encode(p)|
    ensures Jump(Encode(p)[..k]) >= k
  {
    var s := Encode(p)[..k];
    HeaderOfPage(p, k);
    if HEADER + |p.table| <= k {
      var head := [0x4F, 0x67, 0x67, 0x53] + p.fields + LittleEndian(Unsigned(p.granule), 8) + p.more + [|p.table|];
      assert Encode(p) == head + p.table + p.payload;
      assert s[HEADER..HEADER + |p.table|] == p.table;
    }
  }

  /** The walk finds its way to the first page through bytes in which no page begins. */
  lemma {:induction false} WalkOfJunk(junk: seq<Byte>, s: seq<Byte>, at: nat, best: int)
    requires forall i :: 0 <= i < |junk| ==> !PageAt(junk + s, i)
    ensures Starts(junk + s, at) == Starts(s, at + |junk|)
    ensures Largest(junk + s, best) == Largest(s, best)
    decreases |junk|
  {
    hide Captures;
    var all := junk + s;
    if junk == [] {
      assert all == s;
    } else {
      assert all[0..] == all && !PageAt(all, 0);
      assert Rest(all, 1) == junk[1..] + s;
      forall i | 0 <= i < |junk[1..]| ensures !PageAt(junk[1..] + s, i) {
        assert (junk[1..] + s)[i..] == all[i + 1..];
        assert !PageAt(all, i + 1);
      }
      WalkOfJunk(junk[1..], s, at + 1, best);
    }
  }

  /** Together: leading and trailing bytes that are no pages do not change the length found. */
  lemma LengthOfStream(junk: seq<Byte>, pages: seq<Page>, tail: seq<Byte>)
    requires forall p :: p in pages ==> WellFormed(p)
    requires forall i :: 0 <= i < |tail| ==> !PageAt(tail, i)
    requires forall i :: 0 <= i < |junk| ==> !PageAt(junk + (EncodeAll(pages) + tail), i)
    ensures Starts(junk + (EncodeAll(pages) + tail), 0) == Offsets(pages, |junk|)
    ensures Largest(junk + (EncodeAll(pages) + tail), 0) == LargestGranule(pages, 0)
  {
    hide WellFormed, Encode, EncodeAll, Captures, PageAt, Starts, Largest, Offsets, LargestGranule;
    WalkOfJunk(junk, EncodeAll(pages) + tail, 0, 0);
    WalkOfPages(pages, tail, |junk|, 0);
    WalkOfTail(tail, |junk| + |EncodeAll(pages)|, LargestGranule(pages, 0));
  }

  /** Between two stretches of pages the walk finds its way through bytes in which no page begins. */
  lemma WalkResumes(pages: seq<Page>, junk: seq<Byte>, s: seq<Byte>, at: nat, best: int)
    requires forall p :: p in pages ==> WellFormed(p)
    requires forall i :: 0 <= i < |junk| ==> !PageAt(junk + s, i)
    ensures Starts(EncodeAll(pages) + (junk + s), at)
         == Offsets(pages, at) + Starts(s, at + |EncodeAll(pages)| + |junk|)
    ensures Largest(EncodeAll(pages) + (junk + s), best) == Largest(s, LargestGranule(pages, best))
  {
    hide WellFormed, Encode, Captures, PageAt, Starts, Largest, Offsets, LargestGranule;
    WalkOfPages(pages, junk + s, at, best);
    WalkOfJunk(junk, s, at + |EncodeAll(pages)|, LargestGranule(pages, best));
  }

  /** The reported granule is the largest one set: pages without one (minus one) do not count. */
  lemma {:induction false} LargestGranuleIs(pages: seq<Page>, best: int)
    requires 0 <= best
    ensures forall i :: 0 <= i < |pages| ==> pages[i].granule <= LargestGranule(pages, best)
    ensures best <= LargestGranule(pages, best)
    ensures LargestGranule(pages, best) == best
         || exists i :: 0 <= i < |pages| && pages[i].granule == LargestGranule(pages, best)
    ensures LargestGranule(pages, best) == LargestGranule(Set(pages), best)
    decreases |pages|
  {
    if pages != [] {
      LargestGranuleIs(pages[1..], Max(best, pages[0].granule));
      if exists i :: 0 <= i < |pages[1..]| && pages[1..][i].granule == LargestGranule(pages, best) {
        var i :| 0 <= i < |pages[1..]| && pages[1..][i].granule == LargestGranule(pages, best);
        assert pages[i + 1].granule == LargestGranule(pages, best);
      }
      var rest := Set(pages[1..]);
      assert pages[0].granule >= 0 ==> ([pages[0]] + rest)[1..] == rest;
      assert pages[0].granule < 0 ==> [] + rest == rest;
    }
  }

  /** The pages with a granule position. */
  function Set(pages: seq<Page>): seq<Page> {
    if pages == [] then [] else (if pages[0].granule < 0 then [] else [pages[0]]) + Set(pages[1..])
  }
}
