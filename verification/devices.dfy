/** Reading the camera list that `ffmpeg -f avfoundation -list_devices true`
    prints on stderr, and finding a device's camera name in it.

    The listing is a sequence of lines. A header line naming the video devices
    opens the video section; a header line naming the audio devices ends the
    scan. Within the video section, a camera line has the form
    `[AVFoundation indev @ 0x...] [<index>] <name>`. The regular expression that
    takes a camera line apart is a parameter of the model (a Matcher), and so is
    JavaScript's Number() on a string. */
module Devices {
  import opened Wrappers
  import opened Numbers

  /** t occurs in s at position i. */
  predicate OccursAt(s: string, t: string, i: int)
  {
    0 <= i && i + |t| <= |s| && s[i..i + |t|] == t
  }

  /** String.prototype.includes. */
  predicate Contains(s: string, t: string)
  {
    exists i | 0 <= i <= |s| :: OccursAt(s, t, i)
  }

  const AVF_TAG := "[AVFoundation indev"
  const VIDEO_TAG := "video devices:"
  const AUDIO_TAG := "audio devices:"
  /** What the device listing's own loop demands of a camera line. */
  const ENTRY_TAG := "] ["

  /** The header that opens the video section. */
  predicate VideoHeader(line: string)
  {
    Contains(line, AVF_TAG) && Contains(line, VIDEO_TAG)
  }

  /** A header that ends the scan: it names the audio devices and is not a
      video header (a video header is tested first). */
  predicate Stops(line: string)
  {
    !VideoHeader(line) && Contains(line, AVF_TAG) && Contains(line, AUDIO_TAG)
  }

  /** A non-empty run of ASCII digits, what `\d+` matches. */
  predicate IsDigits(s: string)
  {
    |s| > 0 && forall i | 0 <= i < |s| :: '0' <= s[i] <= '9'
  }

  type DigitString = s: string | IsDigits(s) witness "0"

  /** parseInt(s, 10), and Number(s), of a digit string. */
  function DigitsValue(s: DigitString): (n: nat)
    ensures |s| == 1 ==> n == (s[0] as int) - ('0' as int)
    decreases |s|
  {
    var last := (s[|s| - 1] as int) - ('0' as int);
    if |s| == 1 then last else DigitsValue(s[..|s| - 1]) * 10 + last
  }

  /** The two groups of /\[(\d+)\]\s+(.+)/ on a line, the second one trimmed. */
  datatype Match = Match(digits: DigitString, name: string)

  /** The regular expression and the trimming, left abstract. */
  type Matcher = string -> Option<Match>

  /** A camera as listAvfoundationVideoDevices reports it. */
  datatype Camera = Camera(index: nat, name: string)

  /** A camera as GET /cameras reports it, with the device string that selects
      it. */
  datatype CameraEntry = CameraEntry(index: nat, name: string, device: string)

  /** No line before position i, nor line i itself, ends the scan. */
  predicate Reached(lines: seq<string>, i: int)
  {
    0 <= i < |lines| && forall j | 0 <= j <= i :: !Stops(lines[j])
  }

  /** A video header comes before position i. */
  predicate AfterVideoHeader(lines: seq<string>, i: int)
  {
    exists j | 0 <= j < i && j < |lines| :: VideoHeader(lines[j])
  }

  /** Line i is a camera line of the video section: the scan reaches it, it
      follows a video header, it is not itself one, it has the "] [" of an
      entry, and the regular expression matches it. */
  predicate Listed(lines: seq<string>, m: Matcher, i: int)
  {
    Reached(lines, i) && AfterVideoHeader(lines, i) && !VideoHeader(lines[i]) &&
    Contains(lines[i], ENTRY_TAG) && m(lines[i]).Some?
  }

  /** The matches of the camera lines among the first n lines, in order. */
  function Picked(lines: seq<string>, m: Matcher, n: nat): seq<Match>
    requires n <= |lines|
  {
    if n == 0 then []
    else Picked(lines, m, n - 1) + (if Listed(lines, m, n - 1) then [m(lines[n - 1]).value] else [])
  }

  /** What is picked is exactly the matches of the camera lines. */
  lemma {:induction false} PickedMembers(lines: seq<string>, m: Matcher, n: nat, x: Match)
    requires n <= |lines|
    ensures x in Picked(lines, m, n) <==> exists i | 0 <= i < n :: Listed(lines, m, i) && m(lines[i]).value == x
  {
    if n > 0 {
      PickedMembers(lines, m, n - 1, x);
      if x in Picked(lines, m, n) && x !in Picked(lines, m, n - 1) {
        assert Listed(lines, m, n - 1) && m(lines[n - 1]).value == x;
      }
    }
  }

  /** Nothing at or after a line that ends the scan is listed. */
  lemma {:induction false} PickedStops(lines: seq<string>, m: Matcher, b: nat, n: nat)
    requires b <= n <= |lines| && b < |lines| && Stops(lines[b])
    ensures Picked(lines, m, n) == Picked(lines, m, b)
    decreases n
  {
    if n > b {
      PickedStops(lines, m, b, n - 1);
      assert !Reached(lines, n - 1);
    }
  }

  /** The loop of listAvfoundationVideoDevices, repeated verbatim in GET
      /cameras: the match of every camera line of the video section, in
      order. */
  method ScanVideoSection(lines: seq<string>, m: Matcher) returns (found: seq<Match>)
    ensures found == Picked(lines, m, |lines|)
  {
    found := [];
    var inVideo := false;
    var i := 0;
    while i < |lines|
      invariant 0 <= i <= |lines|
      invariant inVideo <==> AfterVideoHeader(lines, i)
      invariant forall j | 0 <= j < i :: !Stops(lines[j])
      invariant found == Picked(lines, m, i)
    {
      var line := lines[i];
      if VideoHeader(line) {
        inVideo := true;
        i := i + 1;
        continue;
      }
      if Contains(line, AVF_TAG) && Contains(line, AUDIO_TAG) {
        PickedStops(lines, m, i, |lines|);
        break;
      }
      if inVideo && Contains(line, ENTRY_TAG) {
        var r := m(line);
        if r.Some? {
          found := found + [r.value];
        }
      }
      assert AfterVideoHeader(lines, i + 1) <==> inVideo;
      i := i + 1;
    }
  }

  /** listAvfoundationVideoDevices: the index and name of each camera line. */
  function ToCamera(x: Match): Camera
  {
    Camera(DigitsValue(x.digits), x.name)
  }

  /** GET /cameras: each camera line with the device string `<digits>:none`,
      whose index field is the camera's own digits again, so that switching to
      it selects that camera. */
  function ToEntry(x: Match): (e: CameraEntry)
    ensures e.index == DigitsValue(x.digits) && e.name == x.name
    ensures IndexField(e.device) == x.digits
  {
    var device := x.digits + ":none";
    IndexFieldStops(x.digits, ":none");
    CameraEntry(DigitsValue(x.digits), x.name, device)
  }

  /** The index field of a colon-free text followed by a colon-led one is the
      text. */
  lemma {:induction false} IndexFieldStops(a: string, b: string)
    requires forall i | 0 <= i < |a| :: a[i] != ':'
    requires |b| > 0 && b[0] == ':'
    ensures IndexField(a + b) == a
    decreases |a|
  {
    if a == [] {
      assert a + b == b;
    } else {
      assert (a + b)[1..] == a[1..] + b;
      IndexFieldStops(a[1..], b);
    }
  }

  /** Line i names the camera with index idx in the current-camera lookup,
      which does not ask for the "] [" of an entry. */
  predicate Names(lines: seq<string>, m: Matcher, idx: real, i: int)
  {
    Reached(lines, i) && AfterVideoHeader(lines, i) && !VideoHeader(lines[i]) &&
    m(lines[i]).Some? && DigitsValue(m(lines[i]).value.digits) as real == idx
  }

  /** The name lookup of GET /camera/current: the name on the first line of
      the video section whose index is idx, or none. */
  method FindCurrentName(lines: seq<string>, m: Matcher, idx: real) returns (name: Option<string>)
    ensures name.None? <==> forall i :: !Names(lines, m, idx, i)
    ensures name.Some? ==> exists i :: (Names(lines, m, idx, i) && name.value == m(lines[i]).value.name &&
      forall j | 0 <= j < i :: !Names(lines, m, idx, j))
  {
    name := None;
    var inVideo := false;
    var i := 0;
    while i < |lines|
      invariant 0 <= i <= |lines|
      invariant inVideo <==> AfterVideoHeader(lines, i)
      invariant forall j | 0 <= j < i :: !Stops(lines[j])
      invariant forall j | 0 <= j < i :: !Names(lines, m, idx, j)
    {
      var line := lines[i];
      if VideoHeader(line) {
        inVideo := true;
        i := i + 1;
        continue;
      }
      if Contains(line, AVF_TAG) && Contains(line, AUDIO_TAG) {
        assert forall j | i <= j :: !Reached(lines, j);
        break;
      }
      if inVideo {
        var found := m(line);
        if found.Some? && DigitsValue(found.value.digits) as real == idx {
          name := Some(found.value.name);
          assert Names(lines, m, idx, i);
          return;
        }
      }
      assert AfterVideoHeader(lines, i + 1) <==> inVideo;
      i := i + 1;
    }
  }

  /** device.split(":")[0]: the text before the first colon, or all of it. */
  function IndexField(device: string): (field: string)
    ensures |field| <= |device| && field == device[..|field|]
    ensures forall i | 0 <= i < |field| :: field[i] != ':'
    ensures |field| < |device| ==> device[|field|] == ':'
  {
    if device == [] || device[0] == ':' then [] else [device[0]] + IndexField(device[1..])
  }

  /** resolveCameraName: the device's index field is read as a number; when it
      is finite and the listing succeeds, the name of the first listed camera
      with that index, unless it is empty. Any failure gives no name. */
  method ResolveCameraName(device: string, toNumber: string -> Number, listing: Option<seq<string>>, m: Matcher)
    returns (name: Option<string>)
    ensures !toNumber(IndexField(device)).Finite? || listing.None? ==> name.None?
    ensures name.Some? ==>
      var found := Picked(listing.value, m, |listing.value|);
      exists k | 0 <= k < |found| ::
        DigitsValue(found[k].digits) as real == toNumber(IndexField(device)).value &&
        found[k].name == name.value && name.value != "" &&
        forall j | 0 <= j < k :: DigitsValue(found[j].digits) != DigitsValue(found[k].digits)
    ensures name.None? && toNumber(IndexField(device)).Finite? && listing.Some? ==>
      var found := Picked(listing.value, m, |listing.value|);
      forall k | 0 <= k < |found| && DigitsValue(found[k].digits) as real == toNumber(IndexField(device)).value ::
        exists j | 0 <= j <= k :: DigitsValue(found[j].digits) == DigitsValue(found[k].digits) && found[j].name == ""
  {
    var idx := toNumber(IndexField(device));
    if !idx.Finite? || listing.None? {
      return None;
    }
    var found := ScanVideoSection(listing.value, m);
    var cameras := seq(|found|, k requires 0 <= k < |found| => ToCamera(found[k]));
    var k := 0;
    while k < |cameras| && cameras[k].index as real != idx.value
      invariant 0 <= k <= |cameras|
      invariant forall j | 0 <= j < k :: DigitsValue(found[j].digits) as real != idx.value
    {
      k := k + 1;
    }
    if k < |cameras| && cameras[k].name != "" {
      assert cameras[k] == ToCamera(found[k]);
      return Some(cameras[k].name);
    }
    name := None;
    if k < |cameras| {
      assert cameras[k] == ToCamera(found[k]);
    }
  }

  /** When every matching line of the video section carries the "] [" of an
      entry, as ffmpeg's listing lines do, the current-camera lookup and the
      device listing know the same indexes. */
  lemma LookupAgreesWithListing(lines: seq<string>, m: Matcher, idx: real)
    requires forall i | Reached(lines, i) && AfterVideoHeader(lines, i) && !VideoHeader(lines[i]) && m(lines[i]).Some? ::
      Contains(lines[i], ENTRY_TAG)
    ensures (exists i :: Names(lines, m, idx, i)) <==>
      (exists x | x in Picked(lines, m, |lines|) :: DigitsValue(x.digits) as real == idx)
  {
    if i :| Names(lines, m, idx, i) {
      var x := m(lines[i]).value;
      assert Listed(lines, m, i);
      PickedMembers(lines, m, |lines|, x);
    }
    if x :| x in Picked(lines, m, |lines|) && DigitsValue(x.digits) as real == idx {
      PickedMembers(lines, m, |lines|, x);
      var i :| 0 <= i < |lines| && Listed(lines, m, i) && m(lines[i]).value == x;
      assert Names(lines, m, idx, i);
    }
  }
}
