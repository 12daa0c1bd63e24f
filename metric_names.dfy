/**
 The two helpers of otel-grafana-stack/cmd/main.go that turn a Go
 runtime-metrics name such as `/gc/heap/allocs:bytes` (a path of
 `/`-separated segments ending in `:unit`) into an exporter-friendly
 instrument name and into the labels attached to each observation.
 */
module MetricNames {
  import opened GoStrings

  /** `normalizeOtelName`: delete the first `/`, turn every `:` into `_`,
      then every remaining `/` into `_`, and trim the white space around the
      result. What comes out holds no separator, has no white space at either
      end, and is never longer than what went in; it is strictly shorter when
      there was a `/` to delete. */
  function NormalizeOtelName(name: string): (r: string)
    ensures '/' !in r && ':' !in r
    ensures NoEdgeSpace(r)
    ensures |r| <= |name|
    ensures '/' in name ==> |r| < |name|
  {
    var noLead := ReplaceFirst(name, '/', "");
    var noColon := ReplaceAll(noLead, ':', '_');
    var noSlash := ReplaceAll(noColon, '/', '_');
    assert '/' !in noSlash && ':' !in noSlash by {
      forall k | 0 <= k < |noSlash| ensures noSlash[k] != '/' && noSlash[k] != ':' {
      }
    }
    var r := TrimSpace(noSlash);
    SliceAvoids(noSlash, LeadingSpaces(noSlash), |r|);
    r
  }

  /** A stretch of a string without `/` and `:` has neither either. */
  lemma SliceAvoids(s: string, a: nat, n: nat)
    requires a + n <= |s| && '/' !in s && ':' !in s
    ensures '/' !in s[a..a + n] && ':' !in s[a..a + n]
  {
    var t := s[a..a + n];
    forall k | 0 <= k < n ensures t[k] == s[a + k] {
    }
  }

  /** A name is left unchanged by `NormalizeOtelName` exactly when it holds
      no `/`, no `:` and has no white space at either end. */
  lemma NormalizeFixedPoint(name: string)
    ensures NormalizeOtelName(name) == name <==> ('/' !in name && ':' !in name && NoEdgeSpace(name))
  {
    if '/' !in name && ':' !in name && NoEdgeSpace(name) {
      assert ReplaceFirst(name, '/', "") == name;
      ReplaceAllAbsent(name, ':', '_');
      ReplaceAllAbsent(name, '/', '_');
      TrimSpaceUnchanged(name);
    }
  }

  /** Normalizing an already normalized name changes nothing. */
  lemma NormalizeIdempotent(name: string)
    ensures NormalizeOtelName(NormalizeOtelName(name)) == NormalizeOtelName(name)
  {
    NormalizeFixedPoint(NormalizeOtelName(name));
  }

  /** A segment or unit of a runtime-metrics name: no separator and no white
      space anywhere. */
  predicate IsPlain(s: string) {
    '/' !in s && ':' !in s && forall k :: 0 <= k < |s| ==> !IsSpace(s[k])
  }

  /** A runtime-metrics name `/seg1/.../segN:unit` normalizes to
      `seg1_..._segN_unit`. */
  lemma NormalizeRuntimeName(segments: seq<string>, unit: string)
    requires |segments| >= 1
    requires forall k :: 0 <= k < |segments| ==> IsPlain(segments[k])
    requires IsPlain(unit)
    ensures NormalizeOtelName("/" + Join(segments, '/') + ":" + unit) == Join(segments, '_') + "_" + unit
  {
    JoinAvoids(segments, '/', ':');
    PiecesFree(segments, '/');
    ReplaceAllJoin(segments, '/', '_');
    JoinNoSpace(segments, '_');
    NoSpaceAround(Join(segments, '_'), '_', unit);
    NormalizeSteps(Join(segments, '/'), unit, Join(segments, '_'));
  }

  /** The three rewriting steps and the trim, on a name `/path:unit`. */
  lemma NormalizeSteps(path: string, unit: string, joined: string)
    requires ':' !in path && '/' !in unit && ':' !in unit
    requires ReplaceAll(path, '/', '_') == joined
    requires NoEdgeSpace(joined + "_" + unit)
    ensures NormalizeOtelName("/" + path + ":" + unit) == joined + "_" + unit
  {
    StripLeadingSlash(path, unit);
    ReplaceAllAround(path, ':', unit, ':', '_');
    ReplaceAllAbsent(path, ':', '_');
    ReplaceAllAround(path, '_', unit, '/', '_');
    TrimSpaceUnchanged(joined + "_" + unit);
  }

  /** Deleting the first `/` of `/path:unit` leaves `path:unit`. */
  lemma StripLeadingSlash(path: string, unit: string)
    ensures ReplaceFirst("/" + path + ":" + unit, '/', "") == path + ":" + unit
  {
    var rest := path + ":" + unit;
    var name := "/" + path + ":" + unit;
    assert name == "/" + rest;
    assert FirstIndex(name, '/') == 0;
    assert name[1..] == rest;
  }

  /** Replacing every `from` in `a + [m] + b`, where `b` holds no `from`. */
  lemma ReplaceAllAround(a: string, m: char, b: string, from: char, to: char)
    requires from !in b
    ensures ReplaceAll(a + [m] + b, from, to) == ReplaceAll(a, from, to) + [if m == from then to else m] + b
  {
    var s := a + [m] + b;
    var lhs, rhs := ReplaceAll(s, from, to), ReplaceAll(a, from, to) + [if m == from then to else m] + b;
    assert |lhs| == |rhs|;
    forall k | 0 <= k < |lhs| ensures lhs[k] == rhs[k] {
      if k < |a| {
        assert s[k] == a[k];
      } else if k == |a| {
        assert s[k] == m;
      } else {
        assert s[k] == b[k - |a| - 1] && rhs[k] == b[k - |a| - 1];
      }
    }
  }

  /** Gluing two space-free strings with a non-space character leaves no white
      space at the edges. */
  lemma NoSpaceAround(a: string, m: char, b: string)
    requires !IsSpace(m)
    requires forall k :: 0 <= k < |a| ==> !IsSpace(a[k])
    requires forall k :: 0 <= k < |b| ==> !IsSpace(b[k])
    ensures NoEdgeSpace(a + [m] + b)
  {
    var s := a + [m] + b;
    assert s[0] == if a == [] then m else a[0];
    assert s[|s| - 1] == if b == [] then m else b[|b| - 1];
  }

  /** Plain pieces have no `sep`: a solver helper that unpacks `IsPlain`
      once for the lemmas that call it. */
  lemma PiecesFree(tokens: seq<string>, sep: char)
    requires sep == '/' || sep == ':'
    requires forall k :: 0 <= k < |tokens| ==> IsPlain(tokens[k])
    ensures forall k :: 0 <= k < |tokens| ==> sep !in tokens[k]
  {
  }

  /** Joining plain pieces with `sep` introduces no `c` other than `sep`. */
  lemma {:induction false} JoinAvoids(tokens: seq<string>, sep: char, c: char)
    requires c != sep && (c == '/' || c == ':')
    requires forall k :: 0 <= k < |tokens| ==> IsPlain(tokens[k])
    ensures c !in Join(tokens, sep)
  {
    if |tokens| > 1 {
      JoinAvoids(tokens[1..], sep, c);
      assert Join(tokens, sep) == tokens[0] + ([sep] + Join(tokens[1..], sep));
    }
  }

  /** Joining plain pieces with a non-space character gives a string without
      white space. */
  lemma {:induction false} JoinNoSpace(tokens: seq<string>, sep: char)
    requires !IsSpace(sep)
    requires forall k :: 0 <= k < |tokens| ==> IsPlain(tokens[k])
    ensures forall k :: 0 <= k < |Join(tokens, sep)| ==> !IsSpace(Join(tokens, sep)[k])
  {
    if |tokens| > 1 {
      JoinNoSpace(tokens[1..], sep);
      var head, tail := tokens[0], Join(tokens[1..], sep);
      var s := Join(tokens, sep);
      assert s == head + [sep] + tail;
      forall k | 0 <= k < |s| ensures !IsSpace(s[k]) {
        if k < |head| {
          assert s[k] == head[k];
        } else if k > |head| {
          assert s[k] == tail[k - |head| - 1];
        }
      }
    }
  }

  /** The name of the heap-allocation metric normalizes the way the exporter
      expects. */
  lemma NormalizeHeapAllocs()
    ensures NormalizeOtelName("/gc/heap/allocs:bytes") == "gc_heap_allocs_bytes"
  {
    var segments := ["gc", "heap", "allocs"];
    HeapAllocsSegments();
    NormalizeRuntimeName(segments, "bytes");
    HeapAllocsSpelling();
  }

  /** The segments of the heap-allocation name, joined both ways, and plain. */
  lemma HeapAllocsSegments()
    ensures var segments := ["gc", "heap", "allocs"];
      Join(segments, '/') == "gc/heap/allocs" && Join(segments, '_') == "gc_heap_allocs" &&
      (forall k :: 0 <= k < |segments| ==> IsPlain(segments[k])) && IsPlain("bytes")
  {
    var segments := ["gc", "heap", "allocs"];
    assert Join(segments[1..], '/') == "heap/allocs";
    assert Join(segments[1..], '_') == "heap_allocs";
    HeapAllocsPlain();
  }

  /** Each segment and the unit of the heap-allocation name are plain: a
      solver helper that keeps these literal facts out of the callers. */
  lemma HeapAllocsPlain()
    ensures IsPlain("gc") && IsPlain("heap") && IsPlain("allocs") && IsPlain("bytes")
  {
  }

  /** How the heap-allocation name and its normal form are spelled out of
      their pieces: a solver helper that keeps these literal equations out of
      the callers. */
  lemma HeapAllocsSpelling()
    ensures "/" + "gc/heap/allocs" + ":" + "bytes" == "/gc/heap/allocs:bytes"
    ensures "gc_heap_allocs" + "_" + "bytes" == "gc_heap_allocs_bytes"
  {
  }

  /** What the label-extraction part of `getMetricsOptions` hands back: no
      options, the three attributes, or Go's run-time panic for indexing a
      one-element slice at 1. */
  datatype MetricsOptions =
    | NoOptions
    | WithAttributes(namespace: string, subsystem: string, units: string)
    | IndexOutOfRange

  /** `getMetricsOptions`: split the name at `/`; fewer than two pieces give no
      options; otherwise Namespace is the second piece, Subsystem comes from
      outside, and Units is the second `:`-piece of the last `/`-piece, which
      does not exist (a panic) when that piece holds no `:`. */
  function GetMetricsOptions(name: string, subsystem: string): (r: MetricsOptions)
    ensures r == NoOptions <==> '/' !in name
    ensures r == IndexOutOfRange <==> '/' in name && ':' !in LastField(name, '/')
    ensures r.WithAttributes? ==>
      IsSecondField(name, '/', r.namespace) && r.subsystem == subsystem &&
      IsSecondField(LastField(name, '/'), ':', r.units)
  {
    var tokens := Split(name, '/');
    SplitSingle(name, '/');
    if |tokens| < 2 then NoOptions
    else
      var last := tokens[|tokens| - 1];
      var nameTokens := Split(last, ':');
      SplitLast(name, '/');
      SplitSingle(last, ':');
      if |nameTokens| < 2 then IndexOutOfRange
      else
        SplitSecond(name, '/');
        SplitSecond(last, ':');
        WithAttributes(tokens[1], subsystem, nameTokens[1])
  }

  /** For a runtime-metrics name `/seg1/seg2/.../segN:unit` the first
      `/`-piece is empty, Namespace is `seg1` and Units is `unit`. */
  lemma RuntimeNameOptions(segments: seq<string>, unit: string, subsystem: string)
    requires |segments| >= 2
    requires forall k :: 0 <= k < |segments| ==> IsPlain(segments[k])
    requires IsPlain(unit)
    ensures var name := "/" + Join(segments, '/') + ":" + unit;
      Split(name, '/')[0] == "" &&
      GetMetricsOptions(name, subsystem) == WithAttributes(segments[0], subsystem, unit)
  {
    var name := "/" + Join(segments, '/') + ":" + unit;
    PiecesFree(segments, '/');
    LeadingSlashFirstPiece(Join(segments, '/') + ":" + unit);
    assert name == "/" + (Join(segments, '/') + ":" + unit);
    RuntimeNameNamespace(segments, unit);
    RuntimeNameLastField(segments, unit);
    var lastSegment := segments[|segments| - 1];
    UnitsField(lastSegment, unit);
    var r := GetMetricsOptions(name, subsystem);
    FirstFieldUnique(name[1..], '/', r.namespace, segments[0]);
    FirstFieldUnique(unit, ':', r.units, unit);
  }

  /** With a single segment, `/seg:unit`, the second `/`-piece is the whole
      `seg:unit`, so Namespace takes the unit along with it, just as the Go
      code does; Units is still `unit`. */
  lemma SingleSegmentOptions(segment: string, unit: string, subsystem: string)
    requires IsPlain(segment) && IsPlain(unit)
    ensures GetMetricsOptions("/" + segment + ":" + unit, subsystem) ==
      WithAttributes(segment + ":" + unit, subsystem, unit)
  {
    var last := segment + ":" + unit;
    var name := "/" + segment + ":" + unit;
    assert name == "/" + last;
    assert '/' !in last;
    FirstIndexAt(name, '/', 0);
    assert name[1..] == last;
    LastFieldPrepend("/", last, '/', last);
    LastFieldUnique(name, '/', last);
    UnitsField(segment, unit);
    var r := GetMetricsOptions(name, subsystem);
    FirstFieldUnique(last, '/', r.namespace, last);
    FirstFieldUnique(unit, ':', r.units, unit);
  }

  /** A name starting with `/` has an empty first piece. */
  lemma LeadingSlashFirstPiece(rest: string)
    ensures Split("/" + rest, '/')[0] == ""
  {
    var name := "/" + rest;
    SplitFirst(name, '/');
    FirstFieldUnique(name, '/', Split(name, '/')[0], "");
  }

  /** The first `/` of `/seg1/.../segN:unit` is its first character, and the
      first field after it is `seg1`. */
  lemma RuntimeNameNamespace(segments: seq<string>, unit: string)
    requires |segments| >= 2 && '/' !in segments[0]
    ensures var name := "/" + Join(segments, '/') + ":" + unit;
      '/' in name && FirstIndex(name, '/') == 0 && IsFirstField(name[1..], '/', segments[0])
  {
    var head, rest := segments[0], Join(segments[1..], '/');
    assert Join(segments, '/') == head + ['/'] + rest;
    ConcatFour("/", head + ['/'] + rest, ":", unit);
    LeadingSeparatorField('/', head, rest + ":" + unit);
  }

  /** The regrouping that `RuntimeNameNamespace` needs: a solver helper that
      keeps this sequence equation out of the larger proof. */
  lemma ConcatFour(a: string, b: string, c: string, d: string)
    ensures a + b + c + d == a + (b + c + d)
  {
  }

  /** In `c head c more`, with no `c` in `head`, the first `c` is at the start
      and the field after it is `head`. */
  lemma LeadingSeparatorField(c: char, head: string, more: string)
    requires c !in head
    ensures var s := [c] + (head + [c] + more);
      c in s && FirstIndex(s, c) == 0 && IsFirstField(s[1..], c, head)
  {
    var s := [c] + (head + [c] + more);
    FirstIndexAt(s, c, 0);
    assert s[1..] == head + [c] + more;
    assert s[1..][..|head|] == head;
  }

  /** The last field of `/seg1/.../segN:unit` at `/` is `segN:unit`. */
  lemma RuntimeNameLastField(segments: seq<string>, unit: string)
    requires |segments| >= 1
    requires forall k :: 0 <= k < |segments| ==> '/' !in segments[k]
    requires '/' !in unit
    ensures LastField("/" + Join(segments, '/') + ":" + unit, '/') == segments[|segments| - 1] + ":" + unit
  {
    var path := Join(segments, '/');
    var tail := ":" + unit;
    JoinLastField(segments, '/', tail);
    LastFieldPrepend("/", path + tail, '/', segments[|segments| - 1] + tail);
    assert "/" + path + ":" + unit == "/" + (path + tail);
    LastFieldUnique("/" + path + ":" + unit, '/', segments[|segments| - 1] + ":" + unit);
  }

  /** In `segment:unit` without further `:`, the second field at `:` is `unit`. */
  lemma UnitsField(segment: string, unit: string)
    requires ':' !in segment && ':' !in unit
    ensures var last := segment + ":" + unit;
      ':' in last && FirstIndex(last, ':') == |segment| && IsFirstField(last[|segment| + 1..], ':', unit)
  {
    var last := segment + ":" + unit;
    assert last[..|segment|] == segment;
    FirstIndexAt(last, ':', |segment|);
    assert last[|segment| + 1..] == unit;
  }

  /** The heap-allocation metric is labelled with namespace `gc` and unit
      `bytes`; its first `/`-piece is the empty string. */
  lemma HeapAllocsOptions(subsystem: string)
    ensures Split("/gc/heap/allocs:bytes", '/')[0] == ""
    ensures GetMetricsOptions("/gc/heap/allocs:bytes", subsystem) == WithAttributes("gc", subsystem, "bytes")
  {
    var segments := ["gc", "heap", "allocs"];
    HeapAllocsSegments();
    RuntimeNameOptions(segments, "bytes", subsystem);
    HeapAllocsSpelling();
  }
}
