// The engine's output stage: `num_tracks` stereo tracks of `track_size`
// interleaved frames, which the generators write into, and the mix loop that
// sums them into the interleaved 16-bit buffer handed to the sound device.

module Tracks {

  /** `num_tracks`. */
  const NumTracks: nat := 4

  /** `track_size`: frames per track. */
  const TrackSize: nat := 256

  /** `channels_pr_track * track_size`: samples per track, left and right
      interleaved (left of frame `i` at `2 * i`, right at `2 * i + 1`). */
  const TrackWidth: nat := 2 * TrackSize

  /** An `int16_t`. */
  type Int16 = x: int | -0x8000 <= x < 0x8000

  /** The sum over the first `rows` tracks of column `col`, accumulated track
      by track from track 0. */
  ghost function ColumnSum(tracks: array2<real>, col: nat, rows: nat): real
    reads tracks
    requires rows <= tracks.Length0 && col < tracks.Length1
  {
    if rows == 0 then 0.0 else ColumnSum(tracks, col, rows - 1) + tracks[rows - 1, col]
  }

  /** A column that is zero in every track sums to zero: silent tracks mix to
      silence. */
  lemma {:induction false} SilentColumn(tracks: array2<real>, col: nat, rows: nat)
    requires rows <= tracks.Length0 && col < tracks.Length1
    requires forall n :: 0 <= n < rows ==> tracks[n, col] == 0.0
    ensures ColumnSum(tracks, col, rows) == 0.0
  {
    if rows > 0 {
      SilentColumn(tracks, col, rows - 1);
    }
  }

  /** When every track holds the same value in two columns (as `write_to_track`
      leaves the left and right samples of a frame), the two columns sum to the
      same value: mono tracks mix to a centred stereo frame. */
  lemma {:induction false} BalancedColumns(tracks: array2<real>, left: nat, right: nat, rows: nat)
    requires rows <= tracks.Length0 && left < tracks.Length1 && right < tracks.Length1
    requires forall n :: 0 <= n < rows ==> tracks[n, left] == tracks[n, right]
    ensures ColumnSum(tracks, left, rows) == ColumnSum(tracks, right, rows)
  {
    if rows > 0 {
      BalancedColumns(tracks, left, right, rows - 1);
    }
  }

  /** When only track 0 carries signal in a column, the column sums to that
      track's sample: a single track passes through the mix unchanged. */
  lemma {:induction false} SoleTrack(tracks: array2<real>, col: nat, rows: nat)
    requires 1 <= rows <= tracks.Length0 && col < tracks.Length1
    requires forall n :: 1 <= n < rows ==> tracks[n, col] == 0.0
    ensures ColumnSum(tracks, col, rows) == tracks[0, col]
  {
    if rows > 1 {
      SoleTrack(tracks, col, rows - 1);
    }
  }

  /** The mixing state of the engine: the track buffers and the device's
      interleaved output buffer of `frames` stereo frames. */
  class Audio {
    var tracks: array2<real>
    var buffer: array<Int16>
    var frames: nat

    ghost predicate Valid()
      reads this
    {
      tracks.Length0 == NumTracks && tracks.Length1 == TrackWidth && buffer.Length == 2 * frames
    }

    /** `audio_setup`, without the device: every track sample is cleared and
        an output buffer of `frames * 2` samples is allocated and cleared.
        `frames` is the period size the device reports. */
    constructor (frames: nat)
      ensures Valid() && fresh(tracks) && fresh(buffer) && this.frames == frames
      ensures forall n, j :: 0 <= n < NumTracks && 0 <= j < TrackWidth ==> tracks[n, j] == 0.0
      ensures forall j :: 0 <= j < buffer.Length ==> buffer[j] == 0
    {
      var t := new real[NumTracks, TrackWidth];
      var n := 0;
      while n < NumTracks
        invariant 0 <= n <= NumTracks
        invariant forall m, j :: 0 <= m < n && 0 <= j < TrackWidth ==> t[m, j] == 0.0
      {
        var i := 0;
        while i < TrackSize
          invariant 0 <= i <= TrackSize
          invariant forall m, j :: 0 <= m < n && 0 <= j < TrackWidth ==> t[m, j] == 0.0
          invariant forall j :: 0 <= j < 2 * i ==> t[n, j] == 0.0
        {
          t[n, 2 * i] := 0.0;
          t[n, 2 * i + 1] := 0.0;
          i := i + 1;
        }
        n := n + 1;
      }
      var b := new Int16[2 * frames];
      var i := 0;
      while i < b.Length
        invariant 0 <= i <= b.Length
        invariant forall j :: 0 <= j < i ==> b[j] == 0
        invariant forall m, j :: 0 <= m < NumTracks && 0 <= j < TrackWidth ==> t[m, j] == 0.0
      {
        b[i] := 0;
        i := i + 1;
      }
      tracks := t;
      buffer := b;
      this.frames := frames;
    }

    /** `write_to_track`: the sample goes to both channels of frame `i` of
        track `n`, and no other track sample changes. */
    method WriteToTrack(n: nat, i: nat, sample: real)
      requires Valid() && n < NumTracks && i < TrackSize
      modifies tracks
      ensures tracks[n, 2 * i] == sample && tracks[n, 2 * i + 1] == sample
      ensures forall m, j :: 0 <= m < NumTracks && 0 <= j < TrackWidth && (m != n || j / 2 != i) ==>
        tracks[m, j] == old(tracks[m, j])
    {
      tracks[n, 2 * i] := sample;
      tracks[n, 2 * i + 1] := sample;
    }

    /** The mix loop: for every frame `i`, the left output `buffer[2 * i]` is
        the quantised sum over all tracks of their left samples and the right
        output `buffer[2 * i + 1]` that of their right samples; that is,
        output sample `j` is the quantised sum of column `j`. `quantize` stands
        for the cast `(int16_t)(32768.0f * x)`. The tracks hold only
        `track_size` frames, so the period may not be longer. */
    method MixTracks(quantize: real -> Int16)
      requires Valid() && frames <= TrackSize
      modifies buffer
      ensures forall j :: 0 <= j < buffer.Length ==> buffer[j] == quantize(ColumnSum(tracks, j, NumTracks))
    {
      var i := 0;
      while i < frames
        invariant 0 <= i <= frames
        invariant forall j :: 0 <= j < 2 * i ==> buffer[j] == quantize(ColumnSum(tracks, j, NumTracks))
      {
        var left, right := 0.0, 0.0;
        var n := 0;
        while n < NumTracks
          invariant 0 <= n <= NumTracks
          invariant left == ColumnSum(tracks, 2 * i, n) && right == ColumnSum(tracks, 2 * i + 1, n)
        {
          left := left + tracks[n, 2 * i];
          right := right + tracks[n, 2 * i + 1];
          n := n + 1;
        }
        buffer[2 * i] := quantize(left);
        buffer[2 * i + 1] := quantize(right);
        i := i + 1;
      }
    }
  }
}
