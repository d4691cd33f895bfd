/** Cutting a text into chunks (chunking.rs) and resolving a character range of it (locator.rs). */
module Locator {
  import opened Outcomes

  datatype LocatorError = InvalidSchema | CanonicalHashMismatch | RangeOutOfBounds | Unreadable(code: string)

  datatype LocatorV1 = LocatorV1(v: int, docId: string, canonicalHash: string, start: int, end: int)

  /** stored is the document's canonical hash, if it has one; read is what decoding its canonical object gives. */
  function ResolveLocatorStrict(stored: Option<string>, read: Result<string, LocatorError>, locator: LocatorV1): Result<string, LocatorError> {
    if locator.v != 1 || stored.None? then Err(InvalidSchema)
    else if stored.value != locator.canonicalHash then Err(CanonicalHashMismatch)
    else if read.Err? then Err(read.error)
    else if locator.start < 0 || locator.end < locator.start || locator.end > |read.value| then Err(RangeOutOfBounds)
    else Ok(read.value[locator.start..locator.end])
  }

  /** A locator resolves exactly for version 1, the stored hash, readable text and a range inside it; and to those characters. */
  lemma ResolvesExactly(stored: Option<string>, read: Result<string, LocatorError>, locator: LocatorV1)
    ensures var r := ResolveLocatorStrict(stored, read, locator);
      (r.Ok? <==> locator.v == 1 && stored == Some(locator.canonicalHash) && read.Ok?
                  && 0 <= locator.start <= locator.end <= |read.value|)
      && (r.Ok? ==> |r.value| == locator.end - locator.start
                    && forall i :: 0 <= i < |r.value| ==> r.value[i] == read.value[locator.start + i])
      && (r == Err(CanonicalHashMismatch) <== locator.v == 1 && stored.Some? && stored.value != locator.canonicalHash)
      && (locator.v != 1 || stored.None? ==> r == Err(InvalidSchema))
      && (locator.v == 1 && stored == Some(locator.canonicalHash) && read.Err? ==> r == Err(read.error))
      && (locator.v == 1 && stored == Some(locator.canonicalHash) && read.Ok? && r.Err? ==> r == Err(RangeOutOfBounds))
  {
  }
}

module Chunking {
  import opened Outcomes
  import opened Text
  import opened Hashing
  import opened CanonJson
  import opened JsonRoundTrip
  import Events
  import opened Locator

  type Usize = n: int | 0 <= n <= MAX_U64

  datatype MdHtmlChunkCfg = MdHtmlChunkCfg(maxChars: Usize, minChars: Usize)

  datatype PdfChunkCfg = PdfChunkCfg(windowChars: Usize, overlapChars: Usize, respectMarkers: bool)

  datatype ChunkingConfigV1 = ChunkingConfigV1(v: I64, mdHtml: MdHtmlChunkCfg, pdf: PdfChunkCfg)

  datatype ChunkRecord = ChunkRecord(chunkId: string, docId: string, ordinal: int, start: int, end: int, configHash: string)

  datatype ChunkError = ConfigInvalid

  datatype Span = Span(start: int, end: int)

  function Max(a: int, b: int): int {
    if a < b then b else a
  }

  function Min(a: int, b: int): int {
    if a < b then a else b
  }

  // ---- Identity of a chunk ----

  function ConfigValue(cfg: ChunkingConfigV1): Value {
    Obj(map[
      "v" := Int(cfg.v),
      "md_html" := Obj(map["max_chars" := Int(cfg.mdHtml.maxChars), "min_chars" := Int(cfg.mdHtml.minChars)]),
      "pdf" := Obj(map[
        "window_chars" := Int(cfg.pdf.windowChars),
        "overlap_chars" := Int(cfg.pdf.overlapChars),
        "respect_markers" := Bool(cfg.pdf.respectMarkers)])])
  }

  ghost function ConfigText(cfg: ChunkingConfigV1): string {
    Canonical(ConfigValue(cfg))
  }

  lemma ConfigHasNoFloat(cfg: ChunkingConfigV1)
    ensures FloatFree(ConfigValue(cfg))
  {
    var members := ConfigValue(cfg).members;
    forall k | k in members
      ensures FloatFree(members[k])
    {
      if k != "v" {
        forall j | j in members[k].members
          ensures FloatFree(members[k].members[j])
        {
        }
      }
    }
  }

  method HashChunkingConfig(h: Hasher, cfg: ChunkingConfigV1) returns (hash: string)
    ensures hash == h(ConfigText(cfg))
  {
    ConfigHasNoFloat(cfg);
    var text := ToCanonicalBytes(ConfigValue(cfg));
    return h(text.value);
  }

  function ChunkFrame(docId: string, configHash: string, ordinal: int, span: Span): string {
    ("kc.chunk.v1\n" + docId) + "\n" + configHash + "\n" + Decimal(ordinal) + "\n" + (Decimal(span.start) + ":" + Decimal(span.end))
  }

  lemma ConfigTextIdentifies(a: ChunkingConfigV1, b: ChunkingConfigV1)
    requires ConfigText(a) == ConfigText(b)
    ensures a == b
  {
    hide Canonical;
    var x, y := ConfigValue(a), ConfigValue(b);
    ConfigHasNoFloat(a);
    ConfigHasNoFloat(b);
    CanonicalInjective(x, y);
    assert x.members["md_html"] == y.members["md_html"] && x.members["pdf"] == y.members["pdf"] && x.members["v"] == y.members["v"];
    var mx, my := x.members["md_html"].members, y.members["md_html"].members;
    assert mx["max_chars"] == my["max_chars"] && mx["min_chars"] == my["min_chars"];
    var px, py := x.members["pdf"].members, y.members["pdf"].members;
    assert px["window_chars"] == py["window_chars"] && px["overlap_chars"] == py["overlap_chars"] && px["respect_markers"] == py["respect_markers"];
  }

  lemma SpanTextIdentifies(a: Span, b: Span)
    requires Decimal(a.start) + ":" + Decimal(a.end) == Decimal(b.start) + ":" + Decimal(b.end)
    ensures a == b
  {
    var s, t := Decimal(a.start) + ":" + Decimal(a.end), Decimal(b.start) + ":" + Decimal(b.end);
    var m, n := |Decimal(a.start)|, |Decimal(b.start)|;
    DecimalCharacters(a.start);
    DecimalCharacters(b.start);
    assert s[m] == ':' && t[n] == ':';
    assert forall i :: 0 <= i < m ==> s[i] == Decimal(a.start)[i];
    assert forall i :: 0 <= i < n ==> t[i] == Decimal(b.start)[i];
    assert m == n;
    assert s[..m] == Decimal(a.start) && t[..n] == Decimal(b.start);
    assert s[m + 1..] == Decimal(a.end) && t[n + 1..] == Decimal(b.end);
    DecimalInjective(a.start, b.start);
    DecimalInjective(a.end, b.end);
  }

  lemma DecimalCharacters(n: int)
    ensures forall i :: 0 <= i < |Decimal(n)| ==> Decimal(n)[i] == '-' || IsDigit(Decimal(n)[i])
  {
    DigitsReadBack(if n < 0 then -n else n);
  }

  /** Without collisions a chunk id stands for one document, configuration, position and range. */
  lemma ChunkIdIdentifies(h: Hasher, docA: string, cfgA: ChunkingConfigV1, ordinalA: int, spanA: Span, docB: string, cfgB: ChunkingConfigV1, ordinalB: int, spanB: Span)
    requires Digests(h)
    requires h(ConfigText(cfgA)) == h(ConfigText(cfgB)) ==> ConfigText(cfgA) == ConfigText(cfgB)
    requires var a, b := ChunkFrame(docA, h(ConfigText(cfgA)), ordinalA, spanA), ChunkFrame(docB, h(ConfigText(cfgB)), ordinalB, spanB);
      h(a) == h(b) && (h(a) == h(b) ==> a == b)
    ensures docA == docB && cfgA == cfgB && ordinalA == ordinalB && spanA == spanB
  {
    hide ConfigText, ValidDigest, Decimal, NoNewline;
    var hashA, hashB := h(ConfigText(cfgA)), h(ConfigText(cfgB));
    var rangeA, rangeB := Decimal(spanA.start) + ":" + Decimal(spanA.end), Decimal(spanB.start) + ":" + Decimal(spanB.end);
    var headA, headB := "kc.chunk.v1\n" + docA, "kc.chunk.v1\n" + docB;
    RangeHasNoNewline(spanA);
    RangeHasNoNewline(spanB);
    Events.SplitLast(headA + "\n" + hashA + "\n" + Decimal(ordinalA), rangeA, headB + "\n" + hashB + "\n" + Decimal(ordinalB), rangeB);
    SpanTextIdentifies(spanA, spanB);
    Events.DecimalHasNoNewline(ordinalA);
    Events.DecimalHasNoNewline(ordinalB);
    Events.SplitLast(headA + "\n" + hashA, Decimal(ordinalA), headB + "\n" + hashB, Decimal(ordinalB));
    DecimalInjective(ordinalA, ordinalB);
    DigestHasNoNewline(hashA);
    DigestHasNoNewline(hashB);
    Events.SplitLast(headA, hashA, headB, hashB);
    assert headA[12..] == docA && headB[12..] == docB;
    ConfigTextIdentifies(cfgA, cfgB);
  }

  lemma RangeHasNoNewline(span: Span)
    ensures NoNewline(Decimal(span.start) + ":" + Decimal(span.end))
  {
    DecimalCharacters(span.start);
    DecimalCharacters(span.end);
  }

  // ---- The spans ----

  function MdMax(cfg: ChunkingConfigV1): (n: int)
    ensures n >= 1
  {
    Max(cfg.mdHtml.maxChars, 1)
  }

  function MdMin(cfg: ChunkingConfigV1): (n: int)
    ensures 1 <= n <= MdMax(cfg)
  {
    Max(Min(cfg.mdHtml.minChars, cfg.mdHtml.maxChars), 1)
  }

  function PdfWindow(cfg: ChunkingConfigV1): (n: int)
    ensures n >= 1
  {
    Max(cfg.pdf.windowChars, 1)
  }

  function PdfOverlap(cfg: ChunkingConfigV1): (n: int)
    ensures 0 <= n < PdfWindow(cfg)
  {
    Min(cfg.pdf.overlapChars, Max(cfg.pdf.windowChars - 1, 0))
  }

  function MdCount(total: nat, max: int, min: int): int
    requires max >= 1
  {
    1 + Max(0, total - min) / max
  }

  function PdfCount(total: nat, window: int, overlap: int): int
    requires 0 <= overlap < window
  {
    if total <= window then 1 else 1 + (total - window + (window - overlap) - 1) / (window - overlap)
  }

  /** The k-th markdown span: whole steps of max, the last one taking all that is left. */
  function MdSpan(total: nat, max: int, min: int, k: nat): Span
    requires max >= 1
  {
    Span(k * max, if k + 1 == MdCount(total, max, min) then total else (k + 1) * max)
  }

  function PdfSpan(total: nat, window: int, overlap: int, k: nat): Span
    requires 0 <= overlap < window
  {
    var start := k * (window - overlap);
    Span(start, if k + 1 == PdfCount(total, window, overlap) then total else start + window)
  }

  function IsPdf(mime: string): bool {
    mime == "application/pdf"
  }

  function SpanCount(total: nat, mime: string, cfg: ChunkingConfigV1): int {
    if total == 0 then 0
    else if IsPdf(mime) then PdfCount(total, PdfWindow(cfg), PdfOverlap(cfg))
    else MdCount(total, MdMax(cfg), MdMin(cfg))
  }

  function SpanAt(total: nat, mime: string, cfg: ChunkingConfigV1, k: nat): Span {
    if IsPdf(mime) then PdfSpan(total, PdfWindow(cfg), PdfOverlap(cfg), k) else MdSpan(total, MdMax(cfg), MdMin(cfg), k)
  }

  function Record(h: Hasher, docId: string, configHash: string, ordinal: int, span: Span): ChunkRecord {
    ChunkRecord(h(ChunkFrame(docId, configHash, ordinal, span)), docId, ordinal, span.start, span.end, configHash)
  }

  // ---- Arithmetic of the two loops ----

  lemma DivisionBounds(a: int, b: int)
    requires b >= 1
    ensures (a / b) * b <= a < (a / b + 1) * b
  {
    assert a == (a / b) * b + a % b;
    assert (a / b + 1) * b == (a / b) * b + b;
  }

  lemma TimesKeepsOrder(j: int, k: int, b: int)
    requires j <= k && b >= 1
    ensures j * b <= k * b
  {
    assert (k - j) * b >= 0;
    assert k * b == j * b + (k - j) * b;
  }

  lemma QuotientIs(a: int, q: int, r: int, b: int)
    requires b >= 1 && 0 <= r < b && a == q * b + r
    ensures a / b == q
  {
    DivisionBounds(a, b);
    if a / b < q {
      TimesKeepsOrder(a / b + 1, q, b);
    }
    if a / b > q {
      TimesKeepsOrder(q + 1, a / b, b);
    }
  }

  /** Where the markdown loop stands at span k, and when it ends. */
  lemma MdTurn(total: nat, max: int, min: int, k: nat)
    requires total > 0 && 1 <= min <= max && k < MdCount(total, max, min)
    ensures (k + 1) * max == k * max + max
    ensures k * max < total && (k > 0 ==> total - k * max >= min)
    ensures k + 1 == MdCount(total, max, min) <==> total - (k * max + max) < min
    ensures MdSpan(total, max, min, k) == Span(k * max, if total - (k * max + max) < min then total else k * max + max)
  {
    var left := Max(0, total - min);
    DivisionBounds(left, max);
    assert (k + 1) * max == k * max + max;
    TimesKeepsOrder(k, left / max, max);
    if k + 1 < MdCount(total, max, min) {
      TimesKeepsOrder(k + 1, left / max, max);
      TimesKeepsOrder(1, k + 1, max);
    } else {
      assert k == left / max;
    }
    assert k > 0 ==> 1 * max <= k * max by {
      if k > 0 {
        TimesKeepsOrder(1, k, max);
      }
    }
  }

  lemma PdfTurn(total: nat, window: int, overlap: int, k: nat)
    requires total > 0 && 0 <= overlap < window && k < PdfCount(total, window, overlap)
    ensures var step := window - overlap;
      (k + 1) * step == k * step + step
      && k * step >= 0 && k * step < total && (k > 0 ==> k * step + overlap < total)
      && (k + 1 == PdfCount(total, window, overlap) <==> k * step + window >= total)
      && PdfSpan(total, window, overlap, k) == Span(k * step, Min(k * step + window, total))
  {
    var step := window - overlap;
    assert (k + 1) * step == k * step + step;
    TimesKeepsOrder(0, k, step);
    if total > window {
      var a := total - window + step - 1;
      DivisionBounds(a, step);
      var q := a / step;
      assert (q + 1) * step == q * step + step;
      if k < q {
        TimesKeepsOrder(k + 1, q, step);
      } else {
        assert k == q;
      }
    } else {
      assert k == 0;
    }
  }

  /** The records of one text, in order. */
  ghost predicate Returned(h: Hasher, docId: string, text: string, mime: string, cfg: ChunkingConfigV1, records: seq<ChunkRecord>) {
    |records| == SpanCount(|text|, mime, cfg)
    && forall k :: 0 <= k < |records| ==> records[k] == Record(h, docId, h(ConfigText(cfg)), k, SpanAt(|text|, mime, cfg, k))
  }

  // ---- The method ----

  method ChunkDocument(h: Hasher, docId: string, text: string, mime: string, cfg: ChunkingConfigV1) returns (r: Result<seq<ChunkRecord>, ChunkError>)
    ensures r.Ok? <==> cfg.v == 1
    ensures r.Ok? ==> |r.value| == SpanCount(|text|, mime, cfg)
    ensures r.Ok? ==> forall k :: 0 <= k < |r.value| ==>
      r.value[k] == Record(h, docId, h(ConfigText(cfg)), k, SpanAt(|text|, mime, cfg, k))
    ensures r.Ok? ==> Returned(h, docId, text, mime, cfg, r.value)
  {
    hide ConfigText, ChunkFrame, Record, MdSpan, PdfSpan, MdCount, PdfCount;
    if cfg.v != 1 {
      return Err(ConfigInvalid);
    }
    var configHash := HashChunkingConfig(h, cfg);
    var total := |text|;
    if total == 0 {
      return Ok([]);
    }
    CountIsPositive(total, mime, cfg);
    var chunks := [];
    var start, ordinal := 0, 0;
    if mime == "application/pdf" {
      var window := Max(cfg.pdf.windowChars, 1);
      var overlap := Min(cfg.pdf.overlapChars, Max(cfg.pdf.windowChars - 1, 0));
      var step := Max(window - overlap, 1);
      while start < total
        invariant 0 <= ordinal < PdfCount(total, window, overlap) && |chunks| == ordinal
        invariant start == ordinal * step && start < total
        invariant forall k :: 0 <= k < |chunks| ==> chunks[k] == Record(h, docId, configHash, k, PdfSpan(total, window, overlap, k))
        decreases total - start
      {
        PdfTurn(total, window, overlap, ordinal);
        var end := Min(start + window, total);
        chunks := chunks + [Record(h, docId, configHash, ordinal, Span(start, end))];
        if end == total {
          break;
        }
        PdfTurn(total, window, overlap, ordinal + 1);
        start := start + step;
        ordinal := ordinal + 1;
      }
    } else {
      var max := Max(cfg.mdHtml.maxChars, 1);
      var min := Max(Min(cfg.mdHtml.minChars, cfg.mdHtml.maxChars), 1);
      while start < total
        invariant 0 <= ordinal < MdCount(total, max, min) && |chunks| == ordinal
        invariant start == ordinal * max && start < total
        invariant forall k :: 0 <= k < |chunks| ==> chunks[k] == Record(h, docId, configHash, k, MdSpan(total, max, min, k))
        decreases total - start
      {
        MdTurn(total, max, min, ordinal);
        var end := Min(start + max, total);
        if total - end < min && end != total {
          end := total;
        }
        chunks := chunks + [Record(h, docId, configHash, ordinal, Span(start, end))];
        if end == total {
          break;
        }
        MdTurn(total, max, min, ordinal + 1);
        start := end;
        ordinal := ordinal + 1;
      }
    }
    return Ok(chunks);
  }

  // ---- What the spans promise ----

  /** Markdown: consecutive spans from 0 to the end, all of length max but the last, which is no stub and no double. */
  lemma MdSpansPartition(total: nat, max: int, min: int, k: nat)
    requires total > 0 && 1 <= min <= max && k < MdCount(total, max, min)
    ensures var span, last := MdSpan(total, max, min, k), k + 1 == MdCount(total, max, min);
      0 <= span.start < span.end <= total
      && (k == 0 ==> span.start == 0)
      && (last <==> span.end == total)
      && (!last ==> span.end - span.start == max && MdSpan(total, max, min, k + 1).start == span.end)
      && (last && k > 0 ==> min <= span.end - span.start <= max + min - 1)
      && (last && k == 0 ==> span.end - span.start <= max + min - 1)
  {
    MdTurn(total, max, min, k);
    TimesKeepsOrder(0, k, max);
    if k + 1 < MdCount(total, max, min) {
      MdTurn(total, max, min, k + 1);
    }
  }

  /** A markdown span exceeds the maximum exactly when the text leaves a stub shorter than the minimum after whole steps. */
  lemma MdSpanExceedsMaxExactly(total: nat, max: int, min: int, k: nat)
    requires total > 0 && 1 <= min <= max && k < MdCount(total, max, min)
    ensures var span := MdSpan(total, max, min, k);
      span.end - span.start > max <==>
      k + 1 == MdCount(total, max, min) && total > max && 0 < total % max < min
  {
    MdTurn(total, max, min, k);
    if k + 1 == MdCount(total, max, min) {
      var whole, rest := total / max, total % max;
      assert total == whole * max + rest;
      assert (whole - 1) * max == whole * max - max;
      if total < min {
        QuotientIs(total, 0, total, max);
      } else if rest >= min {
        QuotientIs(total - min, whole, rest - min, max);
      } else {
        assert whole >= 1;
        QuotientIs(total - min, whole - 1, max + rest - min, max);
        if total > max && rest == 0 {
          assert k * max == (whole - 1) * max;
        }
      }
    }
  }

  /** Pdf: windows of one size from 0 to the end, each sharing exactly the overlap with the next. */
  lemma PdfSpansCover(total: nat, window: int, overlap: int, k: nat)
    requires total > 0 && 0 <= overlap < window && k < PdfCount(total, window, overlap)
    ensures var span, last := PdfSpan(total, window, overlap, k), k + 1 == PdfCount(total, window, overlap);
      0 <= span.start < span.end <= total
      && (k == 0 ==> span.start == 0)
      && (k > 0 ==> overlap < span.end - span.start)
      && (last <==> span.end == total)
      && (!last ==> span.end - span.start == window && span.end - PdfSpan(total, window, overlap, k + 1).start == overlap)
      && (last ==> span.end - span.start <= window)
  {
    PdfTurn(total, window, overlap, k);
  }

  // ---- Rebuilding the text ----

  function Joined(parts: seq<string>): string {
    if parts == [] then "" else Joined(parts[..|parts| - 1]) + parts[|parts| - 1]
  }

  /** What chunk k adds to the text before it: all of it, or all but the part it shares with its neighbour. */
  function Shared(mime: string, cfg: ChunkingConfigV1, k: nat): nat {
    if IsPdf(mime) && k > 0 then PdfOverlap(cfg) else 0
  }

  function Slice(text: string, canonicalHash: string, docId: string, span: Span): Result<string, LocatorError> {
    ResolveLocatorStrict(Some(canonicalHash), Ok(text), LocatorV1(1, docId, canonicalHash, span.start, span.end))
  }

  /** The slices of the first n chunks, each without what the chunk before it already gave. */
  function NewParts(text: string, canonicalHash: string, docId: string, mime: string, cfg: ChunkingConfigV1, n: nat): (parts: seq<string>)
    ensures |parts| == n
  {
    if n == 0 then []
    else
      var slice := Slice(text, canonicalHash, docId, SpanAt(|text|, mime, cfg, n - 1));
      var shared := Shared(mime, cfg, n - 1);
      NewParts(text, canonicalHash, docId, mime, cfg, n - 1)
      + [if slice.Ok? && shared <= |slice.value| then slice.value[shared..] else ""]
  }

  lemma SpanIsInside(total: nat, mime: string, cfg: ChunkingConfigV1, k: nat)
    requires k < SpanCount(total, mime, cfg)
    ensures var span := SpanAt(total, mime, cfg, k);
      0 <= span.start < span.end <= total
      && span.start + Shared(mime, cfg, k) <= span.end
      && span.start + Shared(mime, cfg, k) == (if k == 0 then 0 else SpanAt(total, mime, cfg, k - 1).end)
      && (k + 1 == SpanCount(total, mime, cfg) <==> span.end == total)
  {
    if IsPdf(mime) {
      PdfSpansCover(total, PdfWindow(cfg), PdfOverlap(cfg), k);
      if k > 0 {
        PdfSpansCover(total, PdfWindow(cfg), PdfOverlap(cfg), k - 1);
      }
    } else {
      MdSpansPartition(total, MdMax(cfg), MdMin(cfg), k);
      if k > 0 {
        MdSpansPartition(total, MdMax(cfg), MdMin(cfg), k - 1);
      }
    }
  }

  lemma JoinedAppend(parts: seq<string>, last: string)
    ensures Joined(parts + [last]) == Joined(parts) + last
  {
    assert (parts + [last])[..|parts|] == parts;
  }

  /** Where the first n chunks end. */
  function EndOf(total: nat, mime: string, cfg: ChunkingConfigV1, n: nat): int {
    if n == 0 then 0 else SpanAt(total, mime, cfg, n - 1).end
  }

  /** Chunk n adds exactly the text from where the chunks before it end to its own end. */
  lemma NextPart(text: string, canonicalHash: string, docId: string, mime: string, cfg: ChunkingConfigV1, n: nat)
    requires n < SpanCount(|text|, mime, cfg)
    ensures var from, to := EndOf(|text|, mime, cfg, n), EndOf(|text|, mime, cfg, n + 1);
      0 <= from <= to <= |text|
      && NewParts(text, canonicalHash, docId, mime, cfg, n + 1) == NewParts(text, canonicalHash, docId, mime, cfg, n) + [text[from..to]]
  {
    hide SpanAt, SpanCount, Shared, IsPdf;
    SpanIsInside(|text|, mime, cfg, n);
    var span, shared := SpanAt(|text|, mime, cfg, n), Shared(mime, cfg, n);
    assert text[span.start..span.end][shared..] == text[span.start + shared..span.end];
  }

  lemma NoPartsYet(text: string, canonicalHash: string, docId: string, mime: string, cfg: ChunkingConfigV1)
    ensures EndOf(|text|, mime, cfg, 0) == 0 && Joined(NewParts(text, canonicalHash, docId, mime, cfg, 0)) == ""
  {
  }

  lemma {:induction false} PrefixRebuilt(text: string, canonicalHash: string, docId: string, mime: string, cfg: ChunkingConfigV1, n: nat)
    requires n <= SpanCount(|text|, mime, cfg)
    ensures 0 <= EndOf(|text|, mime, cfg, n) <= |text|
    ensures Joined(NewParts(text, canonicalHash, docId, mime, cfg, n)) == text[..EndOf(|text|, mime, cfg, n)]
  {
    hide SpanAt, SpanCount, NewParts, Joined, EndOf;
    if n == 0 {
      NoPartsYet(text, canonicalHash, docId, mime, cfg);
    } else {
      PrefixRebuilt(text, canonicalHash, docId, mime, cfg, n - 1);
      NextPart(text, canonicalHash, docId, mime, cfg, n - 1);
      var from, to := EndOf(|text|, mime, cfg, n - 1), EndOf(|text|, mime, cfg, n);
      JoinedAppend(NewParts(text, canonicalHash, docId, mime, cfg, n - 1), text[from..to]);
      assert text[..from] + text[from..to] == text[..to];
    }
  }

  /** Every chunk's locator resolves, and the slices, less the overlaps, are the text. */
  lemma ChunksRebuildText(text: string, canonicalHash: string, docId: string, mime: string, cfg: ChunkingConfigV1)
    ensures forall k :: 0 <= k < SpanCount(|text|, mime, cfg) ==>
      Slice(text, canonicalHash, docId, SpanAt(|text|, mime, cfg, k)).Ok?
    ensures SpanCount(|text|, mime, cfg) >= 0
    ensures Joined(NewParts(text, canonicalHash, docId, mime, cfg, SpanCount(|text|, mime, cfg))) == text
  {
    forall k | 0 <= k < SpanCount(|text|, mime, cfg)
      ensures Slice(text, canonicalHash, docId, SpanAt(|text|, mime, cfg, k)).Ok?
    {
      SpanIsInside(|text|, mime, cfg, k);
    }
    var n := SpanCount(|text|, mime, cfg);
    CountIsPositive(|text|, mime, cfg);
    PrefixRebuilt(text, canonicalHash, docId, mime, cfg, n);
    if n > 0 {
      SpanIsInside(|text|, mime, cfg, n - 1);
    }
  }

  lemma CountIsPositive(total: nat, mime: string, cfg: ChunkingConfigV1)
    ensures total == 0 ==> SpanCount(total, mime, cfg) == 0
    ensures total > 0 ==> SpanCount(total, mime, cfg) >= 1
  {
  }

  // ---- The records themselves ----

  /** Every record names its place, its document and configuration, a range of the text that is not empty, and the digest of all that. */
  lemma RecordsAreWellFormed(h: Hasher, docId: string, text: string, mime: string, cfg: ChunkingConfigV1, records: seq<ChunkRecord>, k: nat)
    requires Returned(h, docId, text, mime, cfg, records) && k < |records|
    ensures var c := records[k];
      c.ordinal == k && c.docId == docId && c.configHash == h(ConfigText(cfg))
      && 0 <= c.start < c.end <= |text|
      && c.chunkId == h(ChunkFrame(c.docId, c.configHash, c.ordinal, Span(c.start, c.end)))
  {
    hide ConfigText, ChunkFrame, SpanAt, SpanCount;
    SpanIsInside(|text|, mime, cfg, k);
    var span := SpanAt(|text|, mime, cfg, k);
    assert Span(span.start, span.end) == span;
  }

  /** Markdown records: consecutive, each of exactly max_chars but the last, which reaches the end and is no stub. */
  lemma MarkdownRecords(h: Hasher, docId: string, text: string, mime: string, cfg: ChunkingConfigV1, records: seq<ChunkRecord>, k: nat)
    requires Returned(h, docId, text, mime, cfg, records) && k < |records| && mime != "application/pdf"
    ensures k == 0 ==> records[k].start == 0
    ensures k + 1 < |records| ==> records[k + 1].start == records[k].end
    ensures k + 1 < |records| ==>
      records[k].end - records[k].start == if cfg.mdHtml.maxChars >= 1 then cfg.mdHtml.maxChars else 1
    ensures k + 1 == |records| <==> records[k].end == |text|
    ensures k > 0 && k + 1 == |records| ==>
      (records[k].end - records[k].start >= cfg.mdHtml.minChars || records[k].end - records[k].start >= cfg.mdHtml.maxChars)
    ensures cfg.mdHtml.minChars >= 1 && cfg.mdHtml.maxChars >= 1 ==>
      records[k].end - records[k].start < cfg.mdHtml.maxChars + cfg.mdHtml.minChars
      && records[k].end - records[k].start < cfg.mdHtml.maxChars + cfg.mdHtml.maxChars
  {
    hide ConfigText, ChunkFrame, MdSpan, MdCount;
    MdSpansPartition(|text|, MdMax(cfg), MdMin(cfg), k);
  }

  /** Pdf records: windows of exactly window_chars but the last, sharing exactly the overlap the configuration allows. */
  lemma PdfRecords(h: Hasher, docId: string, text: string, cfg: ChunkingConfigV1, records: seq<ChunkRecord>, k: nat)
    requires Returned(h, docId, text, "application/pdf", cfg, records) && k < |records|
    ensures k == 0 ==> records[k].start == 0
    ensures k + 1 == |records| <==> records[k].end == |text|
    ensures k + 1 < |records| ==>
      records[k].end - records[k].start == if cfg.pdf.windowChars >= 1 then cfg.pdf.windowChars else 1
    ensures k + 1 < |records| ==>
      records[k].end - records[k + 1].start ==
        if cfg.pdf.windowChars == 0 then 0
        else if cfg.pdf.overlapChars < cfg.pdf.windowChars then cfg.pdf.overlapChars
        else cfg.pdf.windowChars - 1
    ensures cfg.pdf.windowChars >= 1 ==> records[k].end - records[k].start <= cfg.pdf.windowChars
  {
    hide ConfigText, ChunkFrame, PdfSpan, PdfCount;
    PdfSpansCover(|text|, PdfWindow(cfg), PdfOverlap(cfg), k);
  }

  function RecordSlice(text: string, canonicalHash: string, c: ChunkRecord): Result<string, LocatorError> {
    ResolveLocatorStrict(Some(canonicalHash), Ok(text), LocatorV1(1, c.docId, canonicalHash, c.start, c.end))
  }

  /** How many characters a record repeats from the one before it, by their own ranges. */
  function Repeated(records: seq<ChunkRecord>, k: nat): nat
    requires k < |records|
  {
    if k > 0 && records[k - 1].end > records[k].start then records[k - 1].end - records[k].start else 0
  }

  /** The slices of the first n records put together, each without what it repeats. */
  function Rebuilt(text: string, canonicalHash: string, records: seq<ChunkRecord>, n: nat): string
    requires n <= |records|
  {
    if n == 0 then ""
    else
      var slice, repeated := RecordSlice(text, canonicalHash, records[n - 1]), Repeated(records, n - 1);
      Rebuilt(text, canonicalHash, records, n - 1)
      + (if slice.Ok? && repeated <= |slice.value| then slice.value[repeated..] else "")
  }

  lemma NextRecord(h: Hasher, docId: string, text: string, mime: string, cfg: ChunkingConfigV1, canonicalHash: string, records: seq<ChunkRecord>, n: nat)
    requires Returned(h, docId, text, mime, cfg, records) && n < |records|
    ensures var from, to := if n == 0 then 0 else records[n - 1].end, records[n].end;
      0 <= from <= to <= |text|
      && RecordSlice(text, canonicalHash, records[n]).Ok?
      && Rebuilt(text, canonicalHash, records, n + 1) == Rebuilt(text, canonicalHash, records, n) + text[from..to]
  {
    hide ConfigText, ChunkFrame, SpanAt, SpanCount, IsPdf;
    SpanIsInside(|text|, mime, cfg, n);
    var c, repeated := records[n], Repeated(records, n);
    assert text[c.start..c.end][repeated..] == text[c.start + repeated..c.end];
  }

  lemma NothingRebuilt(text: string, canonicalHash: string, records: seq<ChunkRecord>)
    ensures Rebuilt(text, canonicalHash, records, 0) == ""
  {
  }

  lemma {:induction false} PrefixOfRecords(h: Hasher, docId: string, text: string, mime: string, cfg: ChunkingConfigV1, canonicalHash: string, records: seq<ChunkRecord>, n: nat)
    requires Returned(h, docId, text, mime, cfg, records) && n <= |records|
    ensures n > 0 ==> 0 <= records[n - 1].end <= |text|
    ensures Rebuilt(text, canonicalHash, records, n) == if n == 0 then "" else text[..records[n - 1].end]
  {
    hide Returned, RecordSlice, Rebuilt;
    if n == 0 {
      NothingRebuilt(text, canonicalHash, records);
    } else {
      PrefixOfRecords(h, docId, text, mime, cfg, canonicalHash, records, n - 1);
      NextRecord(h, docId, text, mime, cfg, canonicalHash, records, n - 1);
      var from, to := if n == 1 then 0 else records[n - 2].end, records[n - 1].end;
      assert text[..from] + text[from..to] == text[..to];
    }
  }

  /** The locators of the returned records all resolve, and their slices, less what each repeats, are the text. */
  lemma RecordsRebuildText(h: Hasher, docId: string, text: string, mime: string, cfg: ChunkingConfigV1, canonicalHash: string, records: seq<ChunkRecord>)
    requires Returned(h, docId, text, mime, cfg, records)
    ensures forall k :: 0 <= k < |records| ==> RecordSlice(text, canonicalHash, records[k]).Ok?
    ensures Rebuilt(text, canonicalHash, records, |records|) == text
  {
    hide RecordSlice, Rebuilt;
    forall k | 0 <= k < |records|
      ensures RecordSlice(text, canonicalHash, records[k]).Ok?
    {
      NextRecord(h, docId, text, mime, cfg, canonicalHash, records, k);
    }
    PrefixOfRecords(h, docId, text, mime, cfg, canonicalHash, records, |records|);
    CountIsPositive(|text|, mime, cfg);
    if |records| > 0 {
      SpanIsInside(|text|, mime, cfg, |records| - 1);
      assert text[..|text|] == text;
    }
  }

  /** Without collisions two records with one id have one document, one configuration, one position and one range. */
  lemma RecordIdIdentifies(h: Hasher, docA: string, textA: string, mimeA: string, cfgA: ChunkingConfigV1, a: seq<ChunkRecord>, i: nat,
      docB: string, textB: string, mimeB: string, cfgB: ChunkingConfigV1, b: seq<ChunkRecord>, j: nat)
    requires Digests(h)
    requires Returned(h, docA, textA, mimeA, cfgA, a) && i < |a| && Returned(h, docB, textB, mimeB, cfgB, b) && j < |b|
    requires h(ConfigText(cfgA)) == h(ConfigText(cfgB)) ==> ConfigText(cfgA) == ConfigText(cfgB)
    requires var x, y := ChunkFrame(docA, h(ConfigText(cfgA)), i, Span(a[i].start, a[i].end)), ChunkFrame(docB, h(ConfigText(cfgB)), j, Span(b[j].start, b[j].end));
      h(x) == h(y) ==> x == y
    requires a[i].chunkId == b[j].chunkId
    ensures docA == docB && cfgA == cfgB && i == j && a[i] == b[j]
  {
    hide ConfigText, ChunkFrame, SpanAt, SpanCount, Returned;
    RecordsAreWellFormed(h, docA, textA, mimeA, cfgA, a, i);
    RecordsAreWellFormed(h, docB, textB, mimeB, cfgB, b, j);
    ChunkIdIdentifies(h, docA, cfgA, i, Span(a[i].start, a[i].end), docB, cfgB, j, Span(b[j].start, b[j].end));
  }
}
