/** The zone-file renderer of core/aws/route53.go: one Route 53 hosted
    zone's record sets in, master-file text (section 5 of RFC 1035, with the
    `$TTL` directive of section 4 of RFC 2308) or a validation error out. */
module Route53 {
  import opened Wrappers
  import opened Strings

  /** A Route 53 resource record set as the renderer reads it. For an alias
      record set, `aliasTarget` holds the DNS name of the alias target. */
  datatype RecordSet = RecordSet(
    name: string,
    rtype: string,
    ttl: int,
    values: seq<string>,
    aliasTarget: Option<string>)

  /** The two validation errors GenerateZoneFile reports. */
  datatype ZoneError = SoaNotFound(zone: string) | InvalidSoa(value: string)
  {
    /** The error text: each message carries the zone or the SOA value
        it is about. */
    function Message(): (r: string)
      ensures SoaNotFound? ==>
                |r| == 30 + |zone| && "SOA record for zone " <= r && r[20..20 + |zone|] == zone
                && HasSuffix(r, " not found")
      ensures InvalidSoa? ==> "invalid SOA record value: " <= r && r[26..] == value
    {
      match this
      case SoaNotFound(zone) =>
        var r := "SOA record for zone " + zone + " not found";
        assert r[20..20 + |zone|] == zone;
        r
      case InvalidSoa(value) => "invalid SOA record value: " + value
    }
  }

  /** In the order of section 3.3.13 of RFC 1035 the SOA RDATA fields are
      MNAME RNAME SERIAL REFRESH RETRY EXPIRE MINIMUM; index 6 is MINIMUM,
      which the renderer uses as the `$TTL` value. */
  const SoaFieldCount := 7
  const MinimumField := 6

  // ---------------------------------------------------------------------
  // recordSorter: order by owner name, then by type

  predicate SameKey(x: RecordSet, y: RecordSet)
  {
    x.name == y.name && x.rtype == y.rtype
  }

  /** recordSorter.Less */
  predicate Less(x: RecordSet, y: RecordSet)
    ensures Less(x, y) ==> !SameKey(x, y)
    ensures Less(x, y) ==> x.name == y.name || StrLess(x.name, y.name)
  {
    if x.name != y.name then StrLess(x.name, y.name) else StrLess(x.rtype, y.rtype)
  }

  lemma LessIrreflexive(x: RecordSet)
    ensures !Less(x, x)
  {
    StrLessIrreflexive(x.rtype);
  }

  lemma LessTransitive(x: RecordSet, y: RecordSet, z: RecordSet)
    requires Less(x, y) && Less(y, z)
    ensures Less(x, z)
  {
    if x.name == y.name && y.name == z.name {
      StrLessTransitive(x.rtype, y.rtype, z.rtype);
    } else if x.name == y.name {
      assert StrLess(y.name, z.name);
    } else if y.name == z.name {
      assert StrLess(x.name, y.name);
    } else {
      StrLessTransitive(x.name, y.name, z.name);
      if x.name == z.name {
        StrLessIrreflexive(x.name);
        StrLessTransitive(z.name, y.name, z.name);
      }
    }
  }

  lemma LessAsymmetric(x: RecordSet, y: RecordSet)
    requires Less(x, y)
    ensures !Less(y, x)
  {
    if Less(y, x) {
      LessTransitive(x, y, x);
      LessIrreflexive(x);
    }
  }

  /** Two record sets that neither precedes have the same (name, type) key:
      Less is a strict weak order whose classes are the keys. */
  lemma LessTotal(x: RecordSet, y: RecordSet)
    ensures Less(x, y) || Less(y, x) || SameKey(x, y)
  {
    StrLessTotal(x.name, y.name);
    StrLessTotal(x.rtype, y.rtype);
  }

  /** "Does not precede" is transitive: what sorting by Less relies on. */
  lemma NotLessTransitive(x: RecordSet, y: RecordSet, z: RecordSet)
    requires !Less(y, x) && !Less(z, y)
    ensures !Less(z, x)
  {
    if Less(z, x) {
      LessTotal(x, y);
      if Less(x, y) {
        LessTransitive(z, x, y);
      }
    }
  }

  /** Non-decreasing by (name, type). */
  predicate Sorted(s: seq<RecordSet>)
  {
    forall i, j :: 0 <= i < j < |s| ==> !Less(s[j], s[i])
  }

  predicate IsSortedPermutation(body: seq<RecordSet>, s: seq<RecordSet>)
  {
    Sorted(body) && multiset(body) == multiset(s)
  }

  /** No two distinct record sets of `s` share a (name, type) key. */
  predicate DistinctKeys(s: seq<RecordSet>)
  {
    forall i, j :: 0 <= i < |s| && 0 <= j < |s| && SameKey(s[i], s[j]) ==> s[i] == s[j]
  }

  /** recordSorter.Swap */
  method Swap(a: array<RecordSet>, i: int, j: int)
    requires 0 <= i < a.Length && 0 <= j < a.Length
    modifies a
    ensures a[i] == old(a[j]) && a[j] == old(a[i])
    ensures forall k :: 0 <= k < a.Length && k != i && k != j ==> a[k] == old(a[k])
    ensures multiset(a[..]) == old(multiset(a[..]))
  {
    a[i], a[j] := a[j], a[i];
  }

  /** `s[lo..hi]` is non-decreasing by (name, type). */
  predicate SortedBetween(s: seq<RecordSet>, lo: int, hi: int)
    requires 0 <= lo <= hi <= |s|
  {
    forall p, q :: lo <= p < q < hi ==> !Less(s[q], s[p])
  }

  /** Nothing in `s[mid + 1..hi + 1]` precedes anything in `s[..mid]`. */
  predicate Cross(s: seq<RecordSet>, mid: int, hi: int)
    requires 0 <= mid <= hi < |s|
  {
    forall p, q :: 0 <= p < mid < q <= hi ==> !Less(s[q], s[p])
  }

  /** One swap of the insertion sort's inner loop moves the gap down by one
      and keeps both sorted runs and the order between them. */
  lemma InsertStep(s: seq<RecordSet>, t: seq<RecordSet>, j: int, i: int)
    requires 0 < j <= i < |s| == |t|
    requires Less(s[j], s[j - 1])
    requires t[j - 1] == s[j] && t[j] == s[j - 1]
    requires forall k :: 0 <= k < |s| && k != j - 1 && k != j ==> t[k] == s[k]
    requires SortedBetween(s, 0, j) && SortedBetween(s, j, i + 1) && Cross(s, j, i)
    ensures SortedBetween(t, 0, j - 1) && SortedBetween(t, j - 1, i + 1) && Cross(t, j - 1, i)
  {
    LessAsymmetric(s[j], s[j - 1]);
    forall p, q | j - 1 <= p < q <= i
      ensures !Less(t[q], t[p])
    {
      if p == j - 1 && q > j {
        assert !Less(s[q], s[j]);
      } else if p == j {
        assert !Less(s[q], s[j - 1]);
      }
    }
    forall p, q | 0 <= p < j - 1 < q <= i
      ensures !Less(t[q], t[p])
    {
      if q == j {
        assert !Less(s[j - 1], s[p]);
      } else if q > j {
        assert !Less(s[q], s[p]);
      }
    }
  }

  /** When the inner loop stops, the first `i + 1` entries are sorted. */
  lemma InsertDone(s: seq<RecordSet>, j: int, i: int)
    requires 0 <= j <= i < |s|
    requires SortedBetween(s, 0, j) && SortedBetween(s, j, i + 1) && Cross(s, j, i)
    requires j == 0 || !Less(s[j], s[j - 1])
    ensures SortedBetween(s, 0, i + 1)
  {
    forall p, q | 0 <= p < j <= q <= i
      ensures !Less(s[q], s[p])
    {
      if q == j && p < j - 1 {
        NotLessTransitive(s[p], s[j - 1], s[j]);
      }
    }
  }

  /** sort.Sort(recordSorter(a)). Go's sort.Sort is not stable; any order
      that is sorted by Less and a permutation of the input meets its
      contract, and this insertion sort by Less and Swap is one of them. */
  method SortRecords(a: array<RecordSet>)
    modifies a
    ensures Sorted(a[..])
    ensures multiset(a[..]) == old(multiset(a[..]))
  {
    var i := 0;
    while i < a.Length
      invariant 0 <= i <= a.Length
      invariant SortedBetween(a[..], 0, i)
      invariant multiset(a[..]) == old(multiset(a[..]))
    {
      var j := i;
      while j > 0 && Less(a[j], a[j - 1])
        invariant 0 <= j <= i
        invariant SortedBetween(a[..], 0, j) && SortedBetween(a[..], j, i + 1) && Cross(a[..], j, i)
        invariant multiset(a[..]) == old(multiset(a[..]))
      {
        ghost var before := a[..];
        Swap(a, j - 1, j);
        InsertStep(before, a[..], j, i);
        j := j - 1;
      }
      InsertDone(a[..], j, i);
      i := i + 1;
    }
  }

  /** The first record set of a sorted sequence precedes none of the others. */
  lemma FirstIsLeast(b: seq<RecordSet>, x: RecordSet)
    requires Sorted(b) && x in b
    ensures !Less(x, b[0])
  {
    var j :| 0 <= j < |b| && b[j] == x;
    if j == 0 {
      LessIrreflexive(x);
    }
  }

  lemma SortedTail(b: seq<RecordSet>)
    requires Sorted(b) && b != []
    ensures Sorted(b[1..])
  {
    forall p, q | 0 <= p < q < |b| - 1
      ensures !Less(b[1..][q], b[1..][p])
    {
      assert b[1..][q] == b[q + 1] && b[1..][p] == b[p + 1];
    }
  }

  /** Sorted orders of the same record sets with distinct keys start alike. */
  lemma SameHead(b1: seq<RecordSet>, b2: seq<RecordSet>)
    requires IsSortedPermutation(b1, b2) && Sorted(b2) && DistinctKeys(b1)
    requires b1 != []
    ensures b2 != [] && b1[0] == b2[0]
  {
    assert |multiset(b2)| == |b1|;
    var x, y := b1[0], b2[0];
    assert x in multiset(b2) && y in multiset(b1);
    assert x in b2 && y in b1;
    FirstIsLeast(b2, x);
    FirstIsLeast(b1, y);
    LessTotal(x, y);
    var i :| 0 <= i < |b1| && b1[i] == y;
  }

  lemma TailMultiset(b: seq<RecordSet>)
    requires b != []
    ensures multiset(b[1..]) == multiset(b) - multiset{b[0]}
  {
    assert b == [b[0]] + b[1..];
  }

  lemma DistinctKeysTail(b: seq<RecordSet>)
    requires DistinctKeys(b) && b != []
    ensures DistinctKeys(b[1..])
  {
    forall p, q | 0 <= p < |b| - 1 && 0 <= q < |b| - 1 && SameKey(b[1..][p], b[1..][q])
      ensures b[1..][p] == b[1..][q]
    {
      assert b[1..][p] == b[p + 1] && b[1..][q] == b[q + 1];
    }
  }

  /** Two sorted orders of the same record sets coincide when no two of
      them share a key: then the body of the zone file does not depend on
      how the sort breaks ties or on the order the records arrived in. */
  lemma {:induction false} SortedPermutationUnique(b1: seq<RecordSet>, b2: seq<RecordSet>)
    requires IsSortedPermutation(b1, b2) && Sorted(b2)
    requires DistinctKeys(b1)
    ensures b1 == b2
    decreases |b1|
  {
    if b1 == [] {
      assert |multiset(b2)| == 0;
    } else {
      SameHead(b1, b2);
      TailMultiset(b1);
      TailMultiset(b2);
      SortedTail(b1);
      SortedTail(b2);
      DistinctKeysTail(b1);
      SortedPermutationUnique(b1[1..], b2[1..]);
      assert b1 == [b1[0]] + b1[1..] && b2 == [b2[0]] + b2[1..];
    }
  }

  // ---------------------------------------------------------------------
  // formatRecordValue

  /** formatRecordValue: every type, TXT included, passes its value through
      unchanged, so it never reports an error. */
  function FormatRecordValue(recordType: string, value: string): (r: Result<string, ZoneError>)
    ensures r == Success(value)
  {
    if recordType == "TXT" then Success(value) else Success(value)
  }

  // ---------------------------------------------------------------------
  // The parts of the zone file, as specification functions

  /** The zone name with a trailing dot added when it has none. */
  function Normalize(zoneName: string): (zone: string)
    ensures HasSuffix(zone, ".")
    ensures HasSuffix(zoneName, ".") ==> zone == zoneName
  {
    if HasSuffix(zoneName, ".") then zoneName else zoneName + "."
  }

  /** "example.com" and "example.com." normalise to the same zone name, so
      every rendering fact stated on Normalize(zoneName) is the same for
      both. */
  lemma NormalizeIgnoresTrailingDot(zoneName: string)
    ensures Normalize(zoneName + ".") == Normalize(zoneName) || HasSuffix(zoneName, ".")
    ensures Normalize(Normalize(zoneName)) == Normalize(zoneName)
  {
    var z := zoneName + ".";
    assert z[|z| - 1..] == ".";
  }

  predicate IsAlias(r: RecordSet)
  {
    r.aliasTarget.Some?
  }

  predicate IsApexSoa(r: RecordSet, zone: string)
  {
    !IsAlias(r) && r.rtype == "SOA" && r.name == zone
  }

  predicate IsApexNs(r: RecordSet, zone: string)
  {
    !IsAlias(r) && r.rtype == "NS" && r.name == zone
  }

  /** Record sets that go to the sorted body of the zone file. */
  predicate IsOther(r: RecordSet, zone: string)
  {
    !IsAlias(r) && !IsApexSoa(r, zone) && !IsApexNs(r, zone)
  }

  /** The apex SOA the renderer keeps: the last one in input order. */
  function FindSoa(rs: seq<RecordSet>, zone: string): (r: Option<RecordSet>)
    ensures r.Some? ==> r.value in rs && IsApexSoa(r.value, zone)
  {
    if rs == [] then None
    else if IsApexSoa(rs[|rs| - 1], zone) then Some(rs[|rs| - 1])
    else FindSoa(rs[..|rs| - 1], zone)
  }

  /** The apex NS record sets, in input order. */
  function ApexNs(rs: seq<RecordSet>, zone: string): (r: seq<RecordSet>)
    ensures |r| <= |rs|
    ensures forall x :: x in r ==> x in rs && IsApexNs(x, zone)
  {
    if rs == [] then []
    else if IsApexNs(rs[|rs| - 1], zone) then ApexNs(rs[..|rs| - 1], zone) + [rs[|rs| - 1]]
    else ApexNs(rs[..|rs| - 1], zone)
  }

  /** The record sets of the body, in input order (before sorting). */
  function Others(rs: seq<RecordSet>, zone: string): (r: seq<RecordSet>)
    ensures |r| <= |rs|
    ensures forall x :: x in r ==> x in rs && IsOther(x, zone)
  {
    if rs == [] then []
    else if IsOther(rs[|rs| - 1], zone) then Others(rs[..|rs| - 1], zone) + [rs[|rs| - 1]]
    else Others(rs[..|rs| - 1], zone)
  }

  function AliasComment(r: RecordSet): string
    requires IsAlias(r)
  {
    "; ALIAS record skipped (not standard): " + r.name + " -> " + r.aliasTarget.value
  }

  /** One comment line per alias record set, in input order. */
  function AliasComments(rs: seq<RecordSet>): (r: seq<string>)
    ensures |r| <= |rs|
  {
    if rs == [] then []
    else if IsAlias(rs[|rs| - 1]) then AliasComments(rs[..|rs| - 1]) + [AliasComment(rs[|rs| - 1])]
    else AliasComments(rs[..|rs| - 1])
  }

  /** A resource record line: owner, TTL, class, type and value, separated
      by tabs. */
  function DataLine(owner: string, ttl: int, rtype: string, value: string): (r: string)
    ensures owner + "\t" <= r && HasSuffix(r, "\t" + value)
    ensures |r| == |owner| + |Decimal(ttl)| + |rtype| + |value| + 6
  {
    assert (owner + "\t" + Decimal(ttl) + "\tIN\t" + rtype) + ("\t" + value)
        == owner + "\t" + Decimal(ttl) + "\tIN\t" + rtype + "\t" + value;
    owner + "\t" + Decimal(ttl) + "\tIN\t" + rtype + "\t" + value
  }

  function TtlDirective(ttl: string): (r: string)
    ensures "$TTL " <= r && r[5..] == ttl
  {
    "$TTL " + ttl
  }

  /** The lines of one apex NS record set: one per value, owner `@`. */
  function NsValueLines(ns: RecordSet): seq<string>
  {
    seq(|ns.values|, k requires 0 <= k < |ns.values| => DataLine("@", ns.ttl, "NS", ns.values[k]))
  }

  function NsLines(nss: seq<RecordSet>): seq<string>
  {
    if nss == [] then [] else NsLines(nss[..|nss| - 1]) + NsValueLines(nss[|nss| - 1])
  }

  /** The owner field: the zone apex is written `@`. */
  function Owner(name: string, zone: string): (r: string)
    ensures name == zone ==> r == "@"
    ensures name != zone ==> r == name
  {
    if name == zone then "@" else name
  }

  /** The lines of one body record set: one per value. */
  function RecordLines(rec: RecordSet, zone: string): seq<string>
  {
    seq(|rec.values|, k requires 0 <= k < |rec.values| =>
      DataLine(Owner(rec.name, zone), rec.ttl, rec.rtype, FormatRecordValue(rec.rtype, rec.values[k]).value))
  }

  function BodyLines(body: seq<RecordSet>, zone: string): seq<string>
  {
    if body == [] then [] else BodyLines(body[..|body| - 1], zone) + RecordLines(body[|body| - 1], zone)
  }

  /** The text of `lines`, each one ended by a newline. */
  function Unlines(lines: seq<string>): string
  {
    if lines == [] then "" else Unlines(lines[..|lines| - 1]) + lines[|lines| - 1] + "\n"
  }

  lemma NsLinesSnoc(nss: seq<RecordSet>, ns: RecordSet)
    ensures NsLines(nss + [ns]) == NsLines(nss) + NsValueLines(ns)
  {
    assert (nss + [ns])[..|nss|] == nss;
  }

  lemma NsLinesPrefix(nss: seq<RecordSet>, i: nat)
    requires i < |nss|
    ensures NsLines(nss[..i + 1]) == NsLines(nss[..i]) + NsValueLines(nss[i])
  {
    assert nss[..i + 1] == nss[..i] + [nss[i]];
    NsLinesSnoc(nss[..i], nss[i]);
  }

  lemma BodyLinesSnoc(body: seq<RecordSet>, rec: RecordSet, zone: string)
    ensures BodyLines(body + [rec], zone) == BodyLines(body, zone) + RecordLines(rec, zone)
  {
    assert (body + [rec])[..|body|] == body;
  }

  lemma BodyLinesPrefix(body: seq<RecordSet>, i: nat, zone: string)
    requires i < |body|
    ensures BodyLines(body[..i + 1], zone) == BodyLines(body[..i], zone) + RecordLines(body[i], zone)
  {
    assert body[..i + 1] == body[..i] + [body[i]];
    BodyLinesSnoc(body[..i], body[i], zone);
  }

  lemma UnlinesSnoc(lines: seq<string>, line: string)
    ensures Unlines(lines + [line]) == Unlines(lines) + line + "\n"
  {
    assert (lines + [line])[..|lines|] == lines;
  }

  lemma UnlinesEnds(lines: seq<string>)
    requires lines != []
    ensures HasSuffix(Unlines(lines), "\n")
  {
    var u := Unlines(lines);
    assert u == (Unlines(lines[..|lines| - 1]) + lines[|lines| - 1]) + "\n";
  }

  /** The three outcomes of Preamble, spelled out for the method that
      writes them step by step. */
  lemma PreambleCases(rs: seq<RecordSet>, zone: string)
    requires SoaHasValue(rs, zone)
    ensures FindSoa(rs, zone).None? ==> Preamble(rs, zone) == Failure(SoaNotFound(zone))
    ensures FindSoa(rs, zone).Some? ==>
      var soa := FindSoa(rs, zone).value;
      var fields := Fields(soa.values[0]);
      if |fields| < SoaFieldCount then Preamble(rs, zone) == Failure(InvalidSoa(soa.values[0]))
      else Preamble(rs, zone) == Success(Unlines(AliasComments(rs))
        + TtlDirective(fields[MinimumField]) + "\n"
        + DataLine("@", soa.ttl, "SOA", soa.values[0]) + "\n\n"
        + Unlines(NsLines(ApexNs(rs, zone))) + "\n")
  {
  }

  /** A block of lines after a blank line, then a newline: the text ends
      with a blank line even when the block is empty. */
  lemma EndsWithBlankLine(pre: string, lines: seq<string>)
    ensures HasSuffix(pre + "\n\n" + Unlines(lines) + "\n", "\n\n")
  {
    var block := Unlines(lines);
    var t := pre + "\n\n" + block + "\n";
    if lines == [] {
      assert t == pre + "\n\n" + "\n";
    } else {
      UnlinesEnds(lines);
      assert t[|t| - 2] == block[|block| - 1];
    }
    assert t[|t| - 2..] == [t[|t| - 2], t[|t| - 1]];
  }

  /** What the source needs to run without a nil dereference: the SOA it
      keeps has at least one value. */
  predicate SoaHasValue(rs: seq<RecordSet>, zone: string)
  {
    FindSoa(rs, zone).Some? ==> FindSoa(rs, zone).value.values != []
  }

  /** Everything before the sorted body: the alias comments, the `$TTL`
      line, the SOA line, a blank line, the apex NS lines and a blank line;
      or the validation error that stops the rendering. */
  function Preamble(rs: seq<RecordSet>, zone: string): (r: Result<string, ZoneError>)
    requires SoaHasValue(rs, zone)
    ensures r.Failure? <==>
      FindSoa(rs, zone).None? || |Fields(FindSoa(rs, zone).value.values[0])| < SoaFieldCount
    ensures r.Success? ==> HasSuffix(r.value, "\n\n")
  {
    match FindSoa(rs, zone)
    case None => Failure(SoaNotFound(zone))
    case Some(soa) =>
      var value := soa.values[0];
      var fields := Fields(value);
      if |fields| < SoaFieldCount then Failure(InvalidSoa(value))
      else
        var soaLine := Unlines(AliasComments(rs))
          + TtlDirective(fields[MinimumField]) + "\n"
          + DataLine("@", soa.ttl, "SOA", value);
        EndsWithBlankLine(soaLine, NsLines(ApexNs(rs, zone)));
        Success(soaLine + "\n\n"
          + Unlines(NsLines(ApexNs(rs, zone)))
          + "\n")
  }

  // ---------------------------------------------------------------------
  // What the parts of the zone file hold

  lemma {:induction false} FindSoaNone(rs: seq<RecordSet>, zone: string)
    ensures FindSoa(rs, zone).None? <==> forall k {:trigger rs[k]} :: 0 <= k < |rs| ==> !IsApexSoa(rs[k], zone)
  {
    if rs != [] {
      var init := rs[..|rs| - 1];
      FindSoaNone(init, zone);
      if FindSoa(rs, zone).None? {
        forall k | 0 <= k < |rs|
          ensures !IsApexSoa(rs[k], zone)
        {
          if k < |init| {
            assert init[k] == rs[k];
          }
        }
      } else if !IsApexSoa(rs[|rs| - 1], zone) {
        var k :| 0 <= k < |init| && IsApexSoa(init[k], zone);
        assert init[k] == rs[k];
      }
    }
  }

  lemma {:induction false} FindSoaLast(rs: seq<RecordSet>, zone: string)
    requires FindSoa(rs, zone).Some?
    ensures
      exists k {:trigger rs[k]} :: 0 <= k < |rs| && FindSoa(rs, zone).value == rs[k] && IsApexSoa(rs[k], zone) &&
        (forall j {:trigger rs[j]} :: k < j < |rs| ==> !IsApexSoa(rs[j], zone))
  {
    var last := |rs| - 1;
    if IsApexSoa(rs[last], zone) {
      assert FindSoa(rs, zone).value == rs[last];
    } else {
      var init := rs[..last];
      FindSoaLast(init, zone);
      var k :| 0 <= k < |init| && FindSoa(init, zone).value == init[k] && IsApexSoa(init[k], zone) &&
        (forall j {:trigger init[j]} :: k < j < |init| ==> !IsApexSoa(init[j], zone));
      assert init[k] == rs[k];
      forall j | k < j < |rs|
        ensures !IsApexSoa(rs[j], zone)
      {
        if j < last {
          assert init[j] == rs[j];
        }
      }
    }
  }

  /** The SOA kept is the last apex SOA of the input, and there is none
      exactly when no record set is an apex SOA. */
  lemma FindSoaIsLastApexSoa(rs: seq<RecordSet>, zone: string)
    ensures FindSoa(rs, zone).None? <==> forall k :: 0 <= k < |rs| ==> !IsApexSoa(rs[k], zone)
    ensures FindSoa(rs, zone).Some? ==>
      exists k :: 0 <= k < |rs| && FindSoa(rs, zone).value == rs[k] && IsApexSoa(rs[k], zone) &&
        (forall j :: k < j < |rs| ==> !IsApexSoa(rs[j], zone))
  {
    FindSoaNone(rs, zone);
    if FindSoa(rs, zone).Some? {
      FindSoaLast(rs, zone);
    }
  }

  /** A record set reaches the body exactly when it is neither an alias nor
      the apex SOA or NS, and then as often as it occurs in the input. */
  lemma {:induction false} OthersMultiplicity(rs: seq<RecordSet>, zone: string, x: RecordSet)
    ensures multiset(Others(rs, zone))[x] == if IsOther(x, zone) then multiset(rs)[x] else 0
  {
    if rs != [] {
      var init, last := rs[..|rs| - 1], rs[|rs| - 1];
      assert rs == init + [last];
      OthersMultiplicity(init, zone, x);
    }
  }

  /** A record set is written in the apex NS block exactly when it is a
      non-alias NS record set at the apex, as often as it occurs. */
  lemma {:induction false} ApexNsMultiplicity(rs: seq<RecordSet>, zone: string, x: RecordSet)
    ensures multiset(ApexNs(rs, zone))[x] == if IsApexNs(x, zone) then multiset(rs)[x] else 0
  {
    if rs != [] {
      var init, last := rs[..|rs| - 1], rs[|rs| - 1];
      assert rs == init + [last];
      ApexNsMultiplicity(init, zone, x);
    }
  }

  /** The comment lines are exactly the comments of the alias record sets. */
  lemma {:induction false} AliasCommentsExact(rs: seq<RecordSet>, line: string)
    ensures line in AliasComments(rs) <==>
      exists k {:trigger rs[k]} :: 0 <= k < |rs| && IsAlias(rs[k]) && line == AliasComment(rs[k])
  {
    if rs != [] {
      var init, last := rs[..|rs| - 1], rs[|rs| - 1];
      AliasCommentsExact(init, line);
      if line in AliasComments(init) {
        var k :| 0 <= k < |init| && IsAlias(init[k]) && line == AliasComment(init[k]);
        assert init[k] == rs[k];
      } else if !(IsAlias(last) && line == AliasComment(last)) {
        forall k | 0 <= k < |rs| && IsAlias(rs[k])
          ensures line != AliasComment(rs[k])
        {
          if k < |init| {
            assert init[k] == rs[k];
          }
        }
      }
    }
  }

  function ApexSoaCount(rs: seq<RecordSet>, zone: string): nat
  {
    if rs == [] then 0
    else ApexSoaCount(rs[..|rs| - 1], zone) + (if IsApexSoa(rs[|rs| - 1], zone) then 1 else 0)
  }

  /** Every record set lands in exactly one place: one comment line per
      alias, the apex SOAs, the apex NS block, or the body. */
  lemma {:induction false} PartitionCovers(rs: seq<RecordSet>, zone: string)
    ensures |AliasComments(rs)| + ApexSoaCount(rs, zone) + |ApexNs(rs, zone)| + |Others(rs, zone)| == |rs|
  {
    if rs != [] {
      PartitionCovers(rs[..|rs| - 1], zone);
    }
  }

  /** An alias record set never yields a data line: it is neither the SOA
      kept, nor in the NS block, nor in the body. */
  lemma AliasNeverData(rs: seq<RecordSet>, zone: string, x: RecordSet)
    requires IsAlias(x)
    ensures FindSoa(rs, zone) != Some(x)
    ensures x !in ApexNs(rs, zone) && x !in Others(rs, zone)
  {
    FindSoaIsLastApexSoa(rs, zone);
    OthersMultiplicity(rs, zone, x);
    ApexNsMultiplicity(rs, zone, x);
  }

  /** Without an apex SOA, and only then, the zone fails with SoaNotFound. */
  lemma MissingSoaFails(rs: seq<RecordSet>, zone: string)
    requires SoaHasValue(rs, zone)
    ensures Preamble(rs, zone) == Failure(SoaNotFound(zone)) <==>
      forall k :: 0 <= k < |rs| ==> !IsApexSoa(rs[k], zone)
  {
    FindSoaIsLastApexSoa(rs, zone);
  }

  lemma PrefixOfAppend(p: string, s: string, t: string)
    requires p <= s
    ensures p <= s + t
  {
    assert (s + t)[..|s|] == s;
  }

  /** For an SOA value of any white-space-separated fields (every value is
      one, by FieldGaps): fewer than seven fields is an InvalidSoa error;
      otherwise the output starts with the alias comments, the `$TTL` line
      carrying the seventh field, MINIMUM, and the SOA line with the whole
      value, followed by a blank line. */
  lemma TtlIsSoaMinimum(rs: seq<RecordSet>, zone: string, seps: seq<string>, words: seq<string>)
    requires SoaHasValue(rs, zone) && FindSoa(rs, zone).Some?
    requires |seps| == |words| + 1 && Gaps(seps) && Words(words)
    requires FindSoa(rs, zone).value.values[0] == Weave(seps, words)
    ensures |words| < SoaFieldCount ==> Preamble(rs, zone) == Failure(InvalidSoa(Weave(seps, words)))
    ensures |words| >= SoaFieldCount ==>
      Preamble(rs, zone).Success? &&
      Unlines(AliasComments(rs)) + TtlDirective(words[MinimumField]) + "\n"
        + DataLine("@", FindSoa(rs, zone).value.ttl, "SOA", Weave(seps, words)) + "\n\n"
        <= Preamble(rs, zone).value
  {
    var soa := FindSoa(rs, zone).value;
    FieldsOfWeave(seps, words);
    assert Fields(soa.values[0]) == words;
    if |words| >= SoaFieldCount {
      var head := Unlines(AliasComments(rs)) + TtlDirective(words[MinimumField]) + "\n";
      var withSoa := head + DataLine("@", soa.ttl, "SOA", soa.values[0]) + "\n\n";
      var withNs := withSoa + Unlines(NsLines(ApexNs(rs, zone)));
      assert Preamble(rs, zone).value == withNs + "\n";
      PrefixOfAppend(withSoa, withSoa, Unlines(NsLines(ApexNs(rs, zone))));
      PrefixOfAppend(withSoa, withNs, "\n");
    }
  }

  /** A data line is five tab-separated fields, owner, TTL, class, type and
      value, and its TTL field reads back as the record's TTL. */
  lemma {:induction false} DataLineFields(owner: string, ttl: int, rtype: string, value: string)
    requires '\t' !in owner && '\t' !in rtype && '\t' !in value
    ensures Split(DataLine(owner, ttl, rtype, value), '\t') == [owner, Decimal(ttl), "IN", rtype, value]
    ensures ParseDecimal(Split(DataLine(owner, ttl, rtype, value), '\t')[1]) == ttl
  {
    var d := Decimal(ttl);
    var f3 := [rtype, value];
    var f2 := ["IN"] + f3;
    var f1 := [d] + f2;
    var fields := [owner] + f1;
    assert '\t' !in d;
    assert f3[1..] == [value] && f2[1..] == f3 && f1[1..] == f2 && fields[1..] == f1;
    assert Join(f3, '\t') == rtype + "\t" + value;
    assert Join(f2, '\t') == "IN" + "\t" + Join(f3, '\t');
    assert Join(f1, '\t') == d + "\t" + Join(f2, '\t');
    assert Join(fields, '\t') == owner + "\t" + Join(f1, '\t');
    assert Join(fields, '\t') == DataLine(owner, ttl, rtype, value);
    assert fields == [owner, d, "IN", rtype, value];
    SplitJoin(fields, '\t');
    DecimalRoundTrip(ttl);
  }

  lemma NsValueLinesExact(ns: RecordSet, line: string)
    ensures line in NsValueLines(ns) <==> exists v :: v in ns.values && line == DataLine("@", ns.ttl, "NS", v)
  {
    if exists v :: v in ns.values && line == DataLine("@", ns.ttl, "NS", v) {
      var v :| v in ns.values && line == DataLine("@", ns.ttl, "NS", v);
      var j :| 0 <= j < |ns.values| && ns.values[j] == v;
      assert NsValueLines(ns)[j] == line;
    }
  }

  lemma {:induction false} NsLinesUnion(nss: seq<RecordSet>, line: string)
    ensures line in NsLines(nss) <==> exists k {:trigger nss[k]} :: 0 <= k < |nss| && line in NsValueLines(nss[k])
  {
    if nss != [] {
      var init, last := nss[..|nss| - 1], nss[|nss| - 1];
      NsLinesUnion(init, line);
      if line in NsLines(init) {
        var k :| 0 <= k < |init| && line in NsValueLines(init[k]);
        assert init[k] == nss[k];
      } else if line !in NsValueLines(last) {
        forall k | 0 <= k < |nss|
          ensures line !in NsValueLines(nss[k])
        {
          if k < |init| {
            assert init[k] == nss[k];
          }
        }
      }
    }
  }

  /** Every value of every apex NS record set is written as an `@` NS line,
      and every line of the NS block is one of these. */
  lemma NsLinesExact(nss: seq<RecordSet>, line: string)
    ensures line in NsLines(nss) <==>
      exists k, v :: 0 <= k < |nss| && v in nss[k].values && line == DataLine("@", nss[k].ttl, "NS", v)
  {
    NsLinesUnion(nss, line);
    forall k | 0 <= k < |nss| {
      NsValueLinesExact(nss[k], line);
    }
  }

  lemma RecordLinesExact(rec: RecordSet, zone: string, line: string)
    ensures line in RecordLines(rec, zone) <==>
      exists v :: v in rec.values && line == DataLine(Owner(rec.name, zone), rec.ttl, rec.rtype, v)
  {
    if exists v :: v in rec.values && line == DataLine(Owner(rec.name, zone), rec.ttl, rec.rtype, v) {
      var v :| v in rec.values && line == DataLine(Owner(rec.name, zone), rec.ttl, rec.rtype, v);
      var j :| 0 <= j < |rec.values| && rec.values[j] == v;
      assert RecordLines(rec, zone)[j] == line;
    }
  }

  lemma {:induction false} BodyLinesUnion(body: seq<RecordSet>, zone: string, line: string)
    ensures line in BodyLines(body, zone) <==>
      exists k {:trigger body[k]} :: 0 <= k < |body| && line in RecordLines(body[k], zone)
  {
    if body != [] {
      var init, last := body[..|body| - 1], body[|body| - 1];
      BodyLinesUnion(init, zone, line);
      if line in BodyLines(init, zone) {
        var k :| 0 <= k < |init| && line in RecordLines(init[k], zone);
        assert init[k] == body[k];
      } else if line !in RecordLines(last, zone) {
        forall k | 0 <= k < |body|
          ensures line !in RecordLines(body[k], zone)
        {
          if k < |init| {
            assert init[k] == body[k];
          }
        }
      }
    }
  }

  /** Every value of every body record set is written on a line of its own,
      owner `@` at the apex, and every body line is one of these. */
  lemma BodyLinesExact(body: seq<RecordSet>, zone: string, line: string)
    ensures line in BodyLines(body, zone) <==>
      exists k, v :: 0 <= k < |body| && v in body[k].values &&
        line == DataLine(Owner(body[k].name, zone), body[k].ttl, body[k].rtype, v)
  {
    BodyLinesUnion(body, zone, line);
    forall k | 0 <= k < |body| {
      RecordLinesExact(body[k], zone, line);
    }
  }

  /** When no two body record sets share a (name, type) key, every sorted
      order gives the same body text: the zone file is then determined by
      the set of record sets alone. */
  lemma BodyDetermined(records: seq<RecordSet>, zone: string, b1: seq<RecordSet>, b2: seq<RecordSet>)
    requires IsSortedPermutation(b1, Others(records, zone))
    requires IsSortedPermutation(b2, Others(records, zone))
    requires DistinctKeys(Others(records, zone))
    ensures Unlines(BodyLines(b1, zone)) == Unlines(BodyLines(b2, zone))
  {
    var o := Others(records, zone);
    forall i, j | 0 <= i < |b1| && 0 <= j < |b1| && SameKey(b1[i], b1[j])
      ensures b1[i] == b1[j]
    {
      assert b1[i] in multiset(o) && b1[j] in multiset(o);
      var p :| 0 <= p < |o| && o[p] == b1[i];
      var q :| 0 <= q < |o| && o[q] == b1[j];
    }
    SortedPermutationUnique(b1, b2);
  }

  /** The body does not depend on the order the record sets arrive in: two
      inputs holding the same record sets, in any order, give the same body
      text when no two body record sets share a (name, type) key. The alias
      comments and the apex NS block keep input order, so only the body is
      independent of it. */
  lemma BodyIndependentOfInputOrder(r1: seq<RecordSet>, r2: seq<RecordSet>, zone: string,
                                    b1: seq<RecordSet>, b2: seq<RecordSet>)
    requires multiset(r1) == multiset(r2)
    requires IsSortedPermutation(b1, Others(r1, zone))
    requires IsSortedPermutation(b2, Others(r2, zone))
    requires DistinctKeys(Others(r1, zone))
    ensures Unlines(BodyLines(b1, zone)) == Unlines(BodyLines(b2, zone))
  {
    forall x
      ensures multiset(Others(r1, zone))[x] == multiset(Others(r2, zone))[x]
    {
      OthersMultiplicity(r1, zone, x);
      OthersMultiplicity(r2, zone, x);
    }
    assert multiset(Others(r1, zone)) == multiset(Others(r2, zone));
    BodyDetermined(r1, zone, b1, b2);
  }

  // ---------------------------------------------------------------------
  // GenerateZoneFile and the loops it runs

  /** The first loop of GenerateZoneFile: writes one comment per alias
      record set and sorts the others into the apex SOA (the last one
      wins), the apex NS record sets and the rest, each in input order. */
  method Partition(records: seq<RecordSet>, zone: string)
    returns (comments: string, soaRecord: Option<RecordSet>, apexNsRecords: seq<RecordSet>, otherRecords: seq<RecordSet>)
    ensures comments == Unlines(AliasComments(records))
    ensures soaRecord == FindSoa(records, zone)
    ensures apexNsRecords == ApexNs(records, zone)
    ensures otherRecords == Others(records, zone)
  {
    comments, soaRecord, apexNsRecords, otherRecords := "", None, [], [];
    for i := 0 to |records|
      invariant comments == Unlines(AliasComments(records[..i]))
      invariant soaRecord == FindSoa(records[..i], zone)
      invariant apexNsRecords == ApexNs(records[..i], zone)
      invariant otherRecords == Others(records[..i], zone)
    {
      var rec := records[i];
      assert records[..i + 1][..i] == records[..i];
      if rec.aliasTarget.Some? {
        var comment := AliasComment(rec);
        UnlinesSnoc(AliasComments(records[..i]), comment);
        comments := comments + comment + "\n";
      } else if rec.rtype == "SOA" && rec.name == zone {
        soaRecord := Some(rec);
      } else if rec.rtype == "NS" && rec.name == zone {
        apexNsRecords := apexNsRecords + [rec];
      } else {
        otherRecords := otherRecords + [rec];
      }
    }
    assert records[..|records|] == records;
  }

  /** One more line written: the step of both nested write loops. */
  lemma UnlinesStep(done: seq<string>, lines: seq<string>, j: nat)
    requires j < |lines|
    ensures Unlines(done + lines[..j + 1]) == Unlines(done + lines[..j]) + lines[j] + "\n"
  {
    assert done + lines[..j + 1] == (done + lines[..j]) + [lines[j]];
    UnlinesSnoc(done + lines[..j], lines[j]);
  }

  /** The inner loop starts from the lines done and ends with all the
      lines of the record set appended. */
  lemma LoopBounds(done: seq<string>, lines: seq<string>)
    ensures done + lines[..0] == done
    ensures done + lines[..|lines|] == done + lines
  {
    assert lines[..|lines|] == lines;
  }

  /** The nested loop over the apex NS record sets and their values. */
  method WriteNsLines(nss: seq<RecordSet>) returns (text: string)
    ensures text == Unlines(NsLines(nss))
  {
    text := "";
    for i := 0 to |nss|
      invariant text == Unlines(NsLines(nss[..i]))
    {
      var ns := nss[i];
      ghost var done := NsLines(nss[..i]);
      ghost var lines := NsValueLines(ns);
      LoopBounds(done, lines);
      for j := 0 to |ns.values|
        invariant text == Unlines(done + lines[..j])
      {
        var line := DataLine("@", ns.ttl, "NS", ns.values[j]);
        assert line == lines[j];
        UnlinesStep(done, lines, j);
        text := text + line + "\n";
      }
      NsLinesPrefix(nss, i);
    }
    assert nss[..|nss|] == nss;
  }

  /** The nested loop over the sorted body record sets and their values. */
  method WriteBody(sorted: array<RecordSet>, zone: string) returns (text: string)
    ensures text == Unlines(BodyLines(sorted[..], zone))
  {
    text := "";
    for i := 0 to sorted.Length
      invariant text == Unlines(BodyLines(sorted[..i], zone))
    {
      var rec := sorted[i];
      ghost var done := BodyLines(sorted[..i], zone);
      ghost var lines := RecordLines(rec, zone);
      LoopBounds(done, lines);
      for j := 0 to |rec.values|
        invariant text == Unlines(done + lines[..j])
      {
        var formattedValue := FormatRecordValue(rec.rtype, rec.values[j]).value;
        var recordName := rec.name;
        if recordName == zone {
          recordName := "@";
        }
        var line := DataLine(recordName, rec.ttl, rec.rtype, formattedValue);
        assert line == lines[j];
        UnlinesStep(done, lines, j);
        text := text + line + "\n";
      }
      BodyLinesPrefix(sorted[..], i, zone);
    }
    assert sorted[..sorted.Length] == sorted[..];
  }

  /** The slice that sort.Sort works on, as an array of its own. */
  method ToArray(s: seq<RecordSet>) returns (a: array<RecordSet>)
    ensures fresh(a) && a[..] == s
  {
    a := new RecordSet[|s|](k requires 0 <= k < |s| => s[k]);
  }

  /** GenerateZoneFile. An empty record list renders as "". Otherwise the
      result is the preamble's error, or the preamble followed by the body
      record sets in some order sorted by (name, type). */
  method GenerateZoneFile(records: seq<RecordSet>, zoneName: string) returns (r: Result<string, ZoneError>)
    requires SoaHasValue(records, Normalize(zoneName))
    ensures records == [] ==> r == Success("")
    ensures var zone := Normalize(zoneName);
      records != [] && Preamble(records, zone).Failure? ==>
        r == Failure(Preamble(records, zone).error)
    ensures var zone := Normalize(zoneName);
      records != [] && Preamble(records, zone).Success? ==>
        r.Success? &&
        exists body :: IsSortedPermutation(body, Others(records, zone)) &&
          r.value == Preamble(records, zone).value + Unlines(BodyLines(body, zone))
  {
    if |records| == 0 {
      return Success("");
    }

    var zone := zoneName;
    if !HasSuffix(zone, ".") {
      zone := zone + ".";
    }
    assert zone == Normalize(zoneName);

    var sb, soaRecord, apexNsRecords, otherRecords := Partition(records, zone);
    PreambleCases(records, zone);

    if soaRecord.None? {
      return Failure(SoaNotFound(zone));
    }

    var soa := soaRecord.value;
    var soaValue := soa.values[0];
    var soaParts := Fields(soaValue);
    if |soaParts| < SoaFieldCount {
      return Failure(InvalidSoa(soaValue));
    }
    var defaultTtl := soaParts[MinimumField];
    var soaLine := DataLine("@", soa.ttl, "SOA", soaValue);
    sb := sb + TtlDirective(defaultTtl) + "\n";
    sb := sb + soaLine + "\n\n";

    var nsText := WriteNsLines(apexNsRecords);
    sb := sb + nsText;
    sb := sb + "\n";

    assert sb == Preamble(records, zone).value;

    var sorted := ToArray(otherRecords);
    SortRecords(sorted);
    var body := WriteBody(sorted, zone);
    ghost var order := sorted[..];
    assert IsSortedPermutation(order, Others(records, zone));
    assert sb + body == Preamble(records, zone).value + Unlines(BodyLines(order, zone));
    sb := sb + body;
    return Success(sb);
  }
}
