/** The grouping step of `read_input`: every region is appended to the list
    of its key, and the keys are visited in the order in which they first
    occur in the file. The key is built from the sequence id, the feature type
    and the strand, the three whitespace-free fields of a GFF line. */
module Grouping {
  import opened Regions

  /** Some of the characters `str.split()` with no argument splits on: the
      ASCII whitespace a GFF line can hold. */
  predicate IsSpace(c: char) {
    c == ' ' || c == '\t' || c == '\n' || c == '\r' || c == '\U{0B}' || c == '\U{0C}'
  }

  /** A field as `str.split()` produces it: no whitespace inside. */
  predicate Field(s: string) {
    forall k :: 0 <= k < |s| ==> !IsSpace(s[k])
  }

  /** The key fields of a region came out of `str.split()`. */
  predicate Parsed(r: Region) {
    Field(r.seqId) && Field(r.featureType) && Field(r.strand)
  }

  /** The key as `resolve_overlaps.py` line 53 builds it: the three fields glued
      together with nothing between them. */
  function RidAsWritten(r: Region): string {
    r.seqId + r.featureType + r.strand
  }

  /** The glued key does not tell the fields apart: two parsed regions on
      different sequences ("chr1" with feature type "0exon" and "chr10" with
      feature type "exon", same strand) share it and so land in one group. */
  lemma RidAsWrittenCollides()
    ensures exists a: Region, b: Region ::
      Parsed(a) && Parsed(b) && a.seqId != b.seqId && RidAsWritten(a) == RidAsWritten(b)
  {
    var a := Region("chr1", "0exon", "+", 1, 10, 5);
    var b := Region("chr10", "exon", "+", 1, 10, 5);
    assert RidAsWritten(a) == "chr10exon+" == RidAsWritten(b);
    assert a.seqId != b.seqId by {
      assert |a.seqId| != |b.seqId|;
    }
  }

  /** The corrected key: the three fields joined by a tab, which no field
      contains. */
  function Rid(r: Region): string {
    r.seqId + "\t" + r.featureType + "\t" + r.strand
  }

  /** In a field followed by a tab, the first tab sits right after the
      field. */
  lemma FirstTab(x: string, y: string)
    requires Field(x)
    ensures (x + "\t" + y)[|x|] == '\t'
    ensures forall k :: 0 <= k < |x| ==> (x + "\t" + y)[k] != '\t'
  {
    forall k | 0 <= k < |x| ensures (x + "\t" + y)[k] != '\t' {
      assert (x + "\t" + y)[k] == x[k] && !IsSpace(x[k]);
    }
  }

  /** Cutting at the first tab recovers both sides when the left side holds
      no tab. */
  lemma CutAtTab(x: string, y: string, x': string, y': string)
    requires Field(x) && Field(x')
    requires x + "\t" + y == x' + "\t" + y'
    ensures x == x' && y == y'
  {
    var s := x + "\t" + y;
    FirstTab(x, y);
    FirstTab(x', y');
    assert |x| == |x'|;
    assert x == s[..|x|] == x';
    assert y == s[|x| + 1..] == y';
  }

  /** The tab-joined key identifies sequence id, feature type and strand:
      two parsed regions share it exactly when they agree on all three. */
  lemma RidInjective(a: Region, b: Region)
    requires Parsed(a) && Parsed(b)
    ensures Rid(a) == Rid(b) <==>
      a.seqId == b.seqId && a.featureType == b.featureType && a.strand == b.strand
  {
    if Rid(a) == Rid(b) {
      assert Rid(a) == a.seqId + "\t" + (a.featureType + "\t" + a.strand);
      assert Rid(b) == b.seqId + "\t" + (b.featureType + "\t" + b.strand);
      CutAtTab(a.seqId, a.featureType + "\t" + a.strand, b.seqId, b.featureType + "\t" + b.strand);
      CutAtTab(a.featureType, a.strand, b.featureType, b.strand);
    }
  }

  /** How a key is built: glued as the program does (`Glued`), or
      tab-joined as evidently intended (`TabJoined`). */
  datatype KeyRule = Glued | TabJoined

  /** The key of a region under a rule. */
  function Key(rule: KeyRule, r: Region): string {
    match rule
    case Glued => RidAsWritten(r)
    case TabJoined => Rid(r)
  }

  /** The regions of `s` with key `k`, in input order. */
  function Members(s: seq<Region>, rule: KeyRule, k: string): seq<Region> {
    if s == [] then []
    else Members(s[..|s| - 1], rule, k) + (if Key(rule, s[|s| - 1]) == k then [s[|s| - 1]] else [])
  }

  /** The distinct keys of `s` in the order of their first occurrence (the
      iteration order of the host language's dictionary). */
  function KeyOrder(s: seq<Region>, rule: KeyRule): seq<string> {
    if s == [] then []
    else
      var ks := KeyOrder(s[..|s| - 1], rule);
      if Key(rule, s[|s| - 1]) in ks then ks else ks + [Key(rule, s[|s| - 1])]
  }

  /** The colliding regions of `RidAsWrittenCollides` fall into one group
      under the program's glued key, and into two under the tab-joined key. */
  lemma GluedKeyMergesGroups()
    ensures var a, b := Region("chr1", "0exon", "+", 1, 10, 5), Region("chr10", "exon", "+", 1, 10, 5);
      |KeyOrder([a, b], Glued)| == 1 && |KeyOrder([a, b], TabJoined)| == 2
  {
    var a, b := Region("chr1", "0exon", "+", 1, 10, 5), Region("chr10", "exon", "+", 1, 10, 5);
    assert [a, b][..1] == [a] && [a][..0] == [];
    assert KeyOrder([a], Glued) == [RidAsWritten(a)] && KeyOrder([a], TabJoined) == [Rid(a)];
    assert RidAsWritten(a) == "chr10exon+" == RidAsWritten(b);
    assert Rid(a) != Rid(b) by {
      assert Rid(a)[4] == '\t' && Rid(b)[4] == '0';
    }
    assert KeyOrder([a, b], TabJoined) == [Rid(a), Rid(b)];
  }

  /** A group holds exactly the regions of the input with its key, each as
      often as in the input, and no other region. */
  lemma {:induction false} MembersCount(s: seq<Region>, rule: KeyRule, k: string, x: Region)
    ensures multiset(Members(s, rule, k))[x] == if Key(rule, x) == k then multiset(s)[x] else 0
  {
    if s != [] {
      MembersCount(s[..|s| - 1], rule, k, x);
      assert s == s[..|s| - 1] + [s[|s| - 1]];
    }
  }

  /** A key is listed exactly when some region carries it, that is, exactly
      when its group is non-empty; and no key is listed twice. */
  lemma {:induction false} KeyOrderFacts(s: seq<Region>, rule: KeyRule)
    ensures forall k :: k in KeyOrder(s, rule) <==> Members(s, rule, k) != []
    ensures forall a, b :: 0 <= a < b < |KeyOrder(s, rule)| ==> KeyOrder(s, rule)[a] != KeyOrder(s, rule)[b]
  {
    if s != [] {
      KeyOrderFacts(s[..|s| - 1], rule);
    }
  }

  /** `resolve_overlaps.py` lines 119-120 over the parsed regions of a file:
      the keys in first-occurrence order and, for each, the list of its
      regions. With `Glued` this is the program's grouping. */
  method Group(regions: seq<Region>, rule: KeyRule) returns (keys: seq<string>, data: map<string, seq<Region>>)
    ensures keys == KeyOrder(regions, rule)
    ensures forall k :: k in data <==> k in keys
    ensures forall k :: k in data ==> data[k] == Members(regions, rule, k)
  {
    keys, data := [], map[];
    for i := 0 to |regions|
      invariant keys == KeyOrder(regions[..i], rule)
      invariant forall k :: k in data <==> k in keys
      invariant forall k :: k in data ==> data[k] == Members(regions[..i], rule, k)
      invariant forall k :: k !in data ==> Members(regions[..i], rule, k) == []
    {
      var f := regions[i];
      var rid := Key(rule, f);
      assert regions[..i + 1][..i] == regions[..i];
      if rid in data {
        data := data[rid := data[rid] + [f]];
      } else {
        keys := keys + [rid];
        data := data[rid := [f]];
      }
    }
    assert regions[..|regions|] == regions;
  }
}
