/** The progress tracker of the video strategy: it reads the transcoder's
    error stream line by line until end of output, searches each line for
    the first `time=HH:MM:SS.cc` marker, and passes the elapsed seconds
    divided by the probed duration to the progress callback. */
module Progress {
  import opened Results
  import opened Effects

  /** Length of a marker: "time=" and the eleven characters of `DD:DD:DD.DD`. */
  const MarkerLength: nat := 16

  /** Whether the pattern `time=(\d{2}):(\d{2}):(\d{2})\.\d{2}` matches at
      index `i` of `line`. */
  predicate MarkerAt(line: string, i: nat)
    // the only 't' of a marker is its first character, so two markers never
    // overlap
    ensures MarkerAt(line, i) ==>
              && i + MarkerLength <= |line| && line[i] == 't'
              && forall j :: i < j < i + MarkerLength ==> line[j] != 't'
  {
    && i + MarkerLength <= |line|
    && line[i..i + 5] == "time="
    && IsDigit(line[i + 5]) && IsDigit(line[i + 6]) && line[i + 7] == ':'
    && IsDigit(line[i + 8]) && IsDigit(line[i + 9]) && line[i + 10] == ':'
    && IsDigit(line[i + 11]) && IsDigit(line[i + 12]) && line[i + 13] == '.'
    && IsDigit(line[i + 14]) && IsDigit(line[i + 15])
  }

  /** `pattern.search` started at index `i`: the leftmost match at or after it. */
  function SearchFrom(line: string, i: nat): (r: Option<nat>)
    requires i <= |line|
    ensures r.Some? ==> i <= r.value && MarkerAt(line, r.value)
    ensures r.Some? ==> forall j: nat :: i <= j < r.value ==> !MarkerAt(line, j)
    ensures r.None? ==> forall j: nat :: i <= j ==> !MarkerAt(line, j)
    decreases |line| - i
  {
    if MarkerAt(line, i) then Some(i)
    else if i == |line| then None
    else SearchFrom(line, i + 1)
  }

  /** `pattern.search(line)`: the index of the leftmost marker, if any. */
  function Search(line: string): Option<nat>
  {
    SearchFrom(line, 0)
  }

  /** The value of the two digits at `line[i]` and `line[i + 1]`. */
  function TwoDigits(line: string, i: nat): nat
    requires i + 2 <= |line| && IsDigit(line[i]) && IsDigit(line[i + 1])
  {
    (line[i] as int - '0' as int) * 10 + (line[i + 1] as int - '0' as int)
  }

  /** Elapsed seconds named by the marker at `i`: hours * 3600 + minutes * 60
      + seconds; the hundredths are matched but ignored. */
  function MarkerSeconds(line: string, i: nat): (r: nat)
    requires MarkerAt(line, i)
    ensures r <= 99 * 3600 + 99 * 60 + 99
  {
    TwoDigits(line, i + 5) * 3600 + TwoDigits(line, i + 8) * 60 + TwoDigits(line, i + 11)
  }

  /** How a clock writes a number below 100: two decimal digits, the
      leading one zero-padded. */
  function Two(n: nat): (r: string)
    requires n < 100
    ensures |r| == 2 && IsDigit(r[0]) && IsDigit(r[1])
  {
    [(48 + n / 10) as char, (48 + n % 10) as char]
  }

  /** The marker the transcoder prints for `hh:mm:ss.cc`. */
  function MarkerText(h: nat, m: nat, s: nat, c: nat): string
    requires h < 100 && m < 100 && s < 100 && c < 100
  {
    "time=" + Two(h) + ":" + Two(m) + ":" + Two(s) + "." + Two(c)
  }

  /** A printed marker matches the pattern, and its groups read back as the
      hours, minutes and seconds printed. */
  lemma MarkerTextReadsBack(h: nat, m: nat, s: nat, c: nat)
    requires h < 100 && m < 100 && s < 100 && c < 100
    ensures MarkerAt(MarkerText(h, m, s, c), 0)
    ensures MarkerSeconds(MarkerText(h, m, s, c), 0) == h * 3600 + m * 60 + s
  {
    var t := MarkerText(h, m, s, c);
    assert t[..5] == "time=";
    assert t[5..7] == Two(h) && t[8..10] == Two(m) && t[11..13] == Two(s);
    assert t[7] == ':' && t[10] == ':' && t[13] == '.';
    assert t[14..16] == Two(c);
  }

  /** A marker keeps its match and its value wherever it sits in a line. */
  lemma MarkerAtShift(pre: string, mk: string, post: string)
    requires MarkerAt(mk, 0)
    ensures MarkerAt(pre + mk + post, |pre|)
    ensures MarkerSeconds(pre + mk + post, |pre|) == MarkerSeconds(mk, 0)
  {
    var line := pre + mk + post;
    assert forall j :: 0 <= j < |mk| ==> line[|pre| + j] == mk[j];
    assert line[|pre|..|pre| + 5] == mk[..5];
  }

  /** Round trip of the tracker's pattern: a line holding the marker for
      `hh:mm:ss.cc` matches at the marker, which names h * 3600 + m * 60 + s
      seconds; with no 't' ahead of the marker, that is the line's first
      marker and the seconds it reports. */
  lemma MarkerRoundTrip(pre: string, h: nat, m: nat, s: nat, c: nat, post: string)
    requires h < 100 && m < 100 && s < 100 && c < 100
    ensures var line := pre + MarkerText(h, m, s, c) + post;
            MarkerAt(line, |pre|) && MarkerSeconds(line, |pre|) == h * 3600 + m * 60 + s
    ensures 't' !in pre ==>
              LineSeconds(pre + MarkerText(h, m, s, c) + post) == Some(h * 3600 + m * 60 + s)
  {
    var line := pre + MarkerText(h, m, s, c) + post;
    MarkerTextReadsBack(h, m, s, c);
    MarkerAtShift(pre, MarkerText(h, m, s, c), post);
    if 't' !in pre {
      var r := Search(line);
      assert r.Some? && r.value <= |pre|;
      assert forall j :: 0 <= j < |pre| ==> line[j] == pre[j] && pre[j] in pre;
      assert r.value == |pre|;
    }
  }

  /** Elapsed seconds named by the first marker of a line, if it has one. */
  function LineSeconds(line: string): Option<nat>
  {
    match Search(line)
    case None => None
    case Some(i) => Some(MarkerSeconds(line, i))
  }

  /** The elapsed times the transcoder announces, one per marked line read
      before end of output (an empty read). */
  function Markers(lines: seq<string>): (r: seq<nat>)
    // at most one per line, each within what two-digit fields can name
    ensures |r| <= |lines|
    ensures forall k :: 0 <= k < |r| ==> r[k] <= 99 * 3600 + 99 * 60 + 99
    decreases |lines|
  {
    if |lines| == 0 || lines[0] == [] then []
    else
      match LineSeconds(lines[0])
      case None => Markers(lines[1..])
      case Some(s) => [s] + Markers(lines[1..])
  }

  /** The values the tracking loop passes to the progress callback. */
  function Reports(lines: seq<string>, duration: Duration): (r: seq<real>)
    // at most one report per line, never a negative fraction
    ensures |r| <= |lines|
    ensures forall k :: 0 <= k < |r| ==> r[k] >= 0.0
    decreases |lines|
  {
    if |lines| == 0 || lines[0] == [] then []
    else
      match LineSeconds(lines[0])
      case None => Reports(lines[1..], duration)
      case Some(s) => [s as real / duration] + Reports(lines[1..], duration)
  }

  /** Every callback value is an announced elapsed time divided by the
      duration, in the order the markers were read: one callback per marked
      line, none for unmarked lines. */
  lemma {:induction false} ReportsScaleMarkers(lines: seq<string>, duration: Duration)
    ensures |Reports(lines, duration)| == |Markers(lines)|
    ensures forall k :: 0 <= k < |Markers(lines)| ==>
              Reports(lines, duration)[k] == Markers(lines)[k] as real / duration
    decreases |lines|
  {
    if |lines| > 0 && lines[0] != [] {
      ReportsScaleMarkers(lines[1..], duration);
    }
  }

  /** Reading a chunk of output that has not reached its end and then the
      rest reports the chunk's values followed by the rest's. */
  lemma {:induction false} ReportsAppend(a: seq<string>, b: seq<string>, duration: Duration)
    requires forall k :: 0 <= k < |a| ==> a[k] != []
    ensures Reports(a + b, duration) == Reports(a, duration) + Reports(b, duration)
    decreases |a|
  {
    if |a| == 0 {
      assert a + b == b;
    } else {
      assert (a + b)[0] == a[0];
      assert (a + b)[1..] == a[1..] + b;
      ReportsAppend(a[1..], b, duration);
    }
  }

  /** A single line read before end of output triggers exactly one callback
      when it holds a marker and none otherwise. */
  lemma OneReportPerMarkedLine(line: string, duration: Duration)
    requires line != []
    ensures Search(line).None? ==> Reports([line], duration) == []
    ensures Search(line).Some? ==>
              Reports([line], duration) == [MarkerSeconds(line, Search(line).value) as real / duration]
  {
    assert [line][1..] == [];
  }

  predicate NatsNonDecreasing(s: seq<nat>)
  {
    forall i, j :: 0 <= i < j < |s| ==> s[i] <= s[j]
  }

  predicate RealsNonDecreasing(s: seq<real>)
  {
    forall i, j :: 0 <= i < j < |s| ==> s[i] <= s[j]
  }

  lemma DivideMonotone(a: nat, b: nat, d: Duration)
    requires a <= b
    ensures a as real / d <= b as real / d
  {
    assert b as real / d - a as real / d == (b - a) as real / d;
  }

  /** Non-decreasing markers give non-decreasing progress fractions. */
  lemma MonotoneMarkersGiveMonotoneReports(lines: seq<string>, duration: Duration)
    requires NatsNonDecreasing(Markers(lines))
    ensures RealsNonDecreasing(Reports(lines, duration))
  {
    ReportsScaleMarkers(lines, duration);
    var m := Markers(lines);
    var r := Reports(lines, duration);
    forall i, j | 0 <= i < j < |r|
      ensures r[i] <= r[j]
    {
      DivideMonotone(m[i], m[j], duration);
    }
  }

  /** A marker at or beyond the probed duration yields a fraction of at least
      one: the tracker does not clamp. */
  lemma OvershootIsNotClamped(lines: seq<string>, duration: Duration, k: nat)
    requires k < |Markers(lines)| && Markers(lines)[k] as real >= duration
    ensures k < |Reports(lines, duration)| && Reports(lines, duration)[k] >= 1.0
  {
    ReportsScaleMarkers(lines, duration);
    AtLeastOne(Markers(lines)[k] as real, duration);
  }

  lemma AtLeastOne(m: real, d: real)
    requires 0.0 < d <= m
    ensures m / d >= 1.0
  {
    assert m / d - d / d == (m - d) / d;
  }
}
