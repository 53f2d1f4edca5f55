/** Reading a trace: which lines of an access file become page accesses.
    A line is given by its whitespace-separated fields; the page ID is the
    second field when there are two or more and the only field otherwise,
    and it is accepted when it has at least two characters and starts with
    'I' (instruction) or 'D' (data). */
module Trace {
  import opened Paging

  /** One accepted access: the page ID and its type, the ID's first letter. */
  datatype PageAccess = PageAccess(pageId: string, accessType: string)

  /** The number of bytes of a character in UTF-8, the encoding of Go
      strings. */
  function Utf8Width(c: char): (r: nat)
    ensures 1 <= r <= 4
  {
    if c as int < 0x80 then 1
    else if c as int < 0x800 then 2
    else if c as int < 0x10000 then 3
    else 4
  }

  /** Go's `len` of a string: its length in bytes. */
  function ByteLen(s: string): (r: nat)
    ensures |s| <= r <= 4 * |s|
  {
    if s == [] then 0 else Utf8Width(s[0]) + ByteLen(s[1..])
  }

  /** Go's `s[0]` on a string: the first byte of the UTF-8 encoding of the
      first character. */
  function FirstByte(c: char): int {
    if c as int < 0x80 then c as int
    else if c as int < 0x800 then 0xC0 + c as int / 0x40
    else if c as int < 0x10000 then 0xE0 + c as int / 0x1000
    else 0xF0 + c as int / 0x40000
  }

  /** The acceptance test of main.go:83: at least two characters, the
      first naming the access type. The Go test counts and indexes bytes;
      on every string it agrees with this test on characters, because no
      other character's encoding starts with the byte of `I` or `D`, and a
      second character adds at least one byte. */
  predicate IsPageId(pageID: string): (b: bool)
    ensures b <==> |pageID| >= 1 && ByteLen(pageID) >= 2 && FirstByte(pageID[0]) in {'I' as int, 'D' as int}
  {
    assert |pageID| >= 2 ==> ByteLen(pageID) >= Utf8Width(pageID[0]) + Utf8Width(pageID[1]);
    |pageID| >= 2 && (pageID[0] == 'I' || pageID[0] == 'D')
  }

  /** What every accepted access looks like. */
  predicate WellFormedAccess(a: PageAccess) {
    IsPageId(a.pageId) && a.accessType == [a.pageId[0]]
  }

  /** The field that holds the page ID (main.go:71-81); a line without
      fields (a blank line) has none. */
  function PageIdField(fields: seq<string>): (r: Option<string>)
    ensures r.None? <==> fields == []
    ensures r.Some? ==> r.value in fields
    ensures |fields| >= 2 ==> r == Some(fields[1])
  {
    if |fields| >= 2 then Some(fields[1])
    else if |fields| == 1 then Some(fields[0])
    else None
  }

  /** The access a line yields, if any (main.go:64-89). */
  function ParseLine(fields: seq<string>): (r: Option<PageAccess>)
    ensures r.Some? ==> WellFormedAccess(r.value)
  {
    match PageIdField(fields)
    case None => None
    case Some(pageID) =>
      if IsPageId(pageID) then Some(PageAccess(pageID, [pageID[0]])) else None
  }

  /** The acceptance rule over the raw fields: a line yields an access
      exactly when it has a field, the chosen field is a valid page ID, and
      then the access carries that ID. It only unfolds the definitions; the
      property with content is the round trip below. */
  lemma ParseLineSpec(fields: seq<string>)
    ensures ParseLine(fields).Some? <==>
              |fields| >= 1 && IsPageId(if |fields| >= 2 then fields[1] else fields[0])
    ensures ParseLine(fields).Some? ==>
              ParseLine(fields).value.pageId == (if |fields| >= 2 then fields[1] else fields[0])
  {
  }

  /** Only the page-ID field decides what a line yields: the first field
      of a line with two or more, and any fields after the second, never
      matter. */
  lemma ParseLineIdFieldOnly(first: string, pageID: string, rest: seq<string>)
    ensures ParseLine([first, pageID] + rest) == ParseLine([pageID])
    ensures ParseLine([first, pageID] + rest) == ParseLine([first, pageID])
  {
    assert ([first, pageID] + rest)[1] == pageID;
  }

  /** Every well-formed access is read back from a line holding just its
      ID, and from a line whose second field is its ID, whatever the other
      fields are. */
  lemma ParseLineRoundTrip(a: PageAccess, first: string, rest: seq<string>)
    requires WellFormedAccess(a)
    ensures ParseLine([a.pageId]) == Some(a)
    ensures ParseLine([first, a.pageId] + rest) == Some(a)
  {
    assert ([first, a.pageId] + rest)[1] == a.pageId;
  }

  /** The accesses (zero or one) that one line contributes. */
  function LineAccesses(fields: seq<string>): seq<PageAccess> {
    match ParseLine(fields)
    case None => []
    case Some(a) => [a]
  }

  /** The accesses read from a sequence of lines, in order. */
  function AcceptedAccesses(lines: seq<seq<string>>): (r: seq<PageAccess>)
    ensures |r| <= |lines|
    ensures forall k :: 0 <= k < |r| ==> WellFormedAccess(r[k])
  {
    if lines == [] then []
    else AcceptedAccesses(lines[..|lines| - 1]) + LineAccesses(lines[|lines| - 1])
  }

  /** Reading two files' worth of lines one after the other reads the
      accesses of both, in order. */
  lemma {:induction false} AcceptedAppend(a: seq<seq<string>>, b: seq<seq<string>>)
    ensures AcceptedAccesses(a + b) == AcceptedAccesses(a) + AcceptedAccesses(b)
    decreases |b|
  {
    if b == [] {
      assert a + b == a;
    } else {
      var b' := b[..|b| - 1];
      assert (a + b)[..|a + b| - 1] == a + b';
      assert (a + b)[|a + b| - 1] == b[|b| - 1];
      AcceptedAppend(a, b');
    }
  }

  /** An access is read exactly when some line yields it. */
  lemma {:induction false} AcceptedMembers(lines: seq<seq<string>>, a: PageAccess)
    ensures a in AcceptedAccesses(lines) <==> exists i :: 0 <= i < |lines| && ParseLine(lines[i]) == Some(a)
  {
    if lines != [] {
      var init := lines[..|lines| - 1];
      AcceptedMembers(init, a);
      if a in AcceptedAccesses(lines) && a !in AcceptedAccesses(init) {
        assert ParseLine(lines[|lines| - 1]) == Some(a);
      }
      if exists i :: 0 <= i < |lines| && ParseLine(lines[i]) == Some(a) {
        var i :| 0 <= i < |lines| && ParseLine(lines[i]) == Some(a);
        if i < |lines| - 1 {
          assert init[i] == lines[i];
        }
      }
    }
  }

  /** No access is read exactly when no line is accepted; this is the
      error case of main.go:106-108. */
  lemma AcceptedEmpty(lines: seq<seq<string>>)
    ensures AcceptedAccesses(lines) == [] <==> forall i :: 0 <= i < |lines| ==> ParseLine(lines[i]).None?
  {
    if AcceptedAccesses(lines) != [] {
      AcceptedMembers(lines, AcceptedAccesses(lines)[0]);
    } else {
      forall i | 0 <= i < |lines|
        ensures ParseLine(lines[i]).None?
      {
        if ParseLine(lines[i]).Some? {
          AcceptedMembers(lines, ParseLine(lines[i]).value);
        }
      }
    }
  }

  /** The page IDs of a sequence of accesses, which the policies replay. */
  function PageIds(accesses: seq<PageAccess>): (r: seq<string>)
    ensures |r| == |accesses|
    ensures forall k :: 0 <= k < |r| ==> r[k] == accesses[k].pageId
  {
    if accesses == [] then [] else PageIds(accesses[..|accesses| - 1]) + [accesses[|accesses| - 1].pageId]
  }
}
