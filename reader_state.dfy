/** The playback position of the reader (the ReaderState class of
    src/lib/stores/settings.svelte.ts), without its persistence and reactive
    side effects. The clock is a parameter: `now` stands for Date.now(). */
module ReaderStore {
  import opened Types
  import TextParser

  class ReaderState {
    var words: seq<Word>
    var text: string
    var currentIndex: int
    var playing: bool
    var playbackStartTime: Option<int>
    var showUploader: bool

    /** The position addresses a word, or is 0 when there are no words. */
    ghost predicate IndexInRange()
      reads this
    {
      (|words| == 0 && currentIndex == 0) || 0 <= currentIndex < |words|
    }

    /** A start time is recorded exactly while playing. */
    ghost predicate ClockMatchesPlaying()
      reads this
    {
      playing <==> playbackStartTime.Some?
    }

    /** The initial state: no text, no words, at the start, paused. */
    constructor ()
      ensures words == [] && text == "" && currentIndex == 0
      ensures !playing && playbackStartTime == None && !showUploader
      ensures IndexInRange() && ClockMatchesPlaying()
    {
      words := [];
      text := "";
      currentIndex := 0;
      playing := false;
      playbackStartTime := None;
      showUploader := false;
    }

    /** Replace the text and its reading units and go back to the start,
        paused, with the uploader hidden. The start time of playback is left
        as it was, so loading while playing leaves a start time recorded
        although playback has stopped. */
    method LoadNewText(newText: string)
      modifies this
      ensures text == newText && words == TextParser.ParseText(newText)
      ensures currentIndex == 0 && !playing && !showUploader
      ensures playbackStartTime == old(playbackStartTime)
      ensures IndexInRange()
      ensures ClockMatchesPlaying() <==> old(playbackStartTime) == None
    {
      var parsed := TextParser.ParseText(newText);
      text := newText;
      words := parsed;
      currentIndex := 0;
      playing := false;
      showUploader := false;
    }

    /** With no words, only ask for the uploader. Otherwise flip between
        playing and paused, restarting from the first word when starting from
        the last word or beyond, and record `now` as the start time exactly
        when playback starts. */
    method TogglePlay(now: int)
      modifies this
      ensures words == old(words) && text == old(text)
      ensures old(words) == [] ==>
                showUploader && currentIndex == old(currentIndex) && playing == old(playing)
                && playbackStartTime == old(playbackStartTime)
      ensures old(words) != [] ==>
                showUploader == old(showUploader) && playing == !old(playing)
                && playbackStartTime == (if playing then Some(now) else None)
      ensures old(words) != [] && !old(playing) && old(currentIndex) >= |words| - 1 ==> currentIndex == 0
      ensures old(words) != [] && !old(playing) && old(currentIndex) < |words| - 1 ==> currentIndex == old(currentIndex)
      ensures old(playing) ==> currentIndex == old(currentIndex)
      ensures old(IndexInRange()) ==> IndexInRange()
      ensures old(words) != [] ==> ClockMatchesPlaying()
      ensures old(ClockMatchesPlaying()) ==> ClockMatchesPlaying()
    {
      if |words| == 0 {
        showUploader := true;
        return;
      }
      if currentIndex >= |words| - 1 && !playing {
        currentIndex := 0;
      }
      playing := !playing;
      if playing {
        playbackStartTime := Some(now);
      } else {
        playbackStartTime := None;
      }
    }

    /** Back to the first word, paused. */
    method Reset()
      modifies this
      ensures currentIndex == 0 && !playing && playbackStartTime == None
      ensures words == old(words) && text == old(text) && showUploader == old(showUploader)
      ensures IndexInRange() && ClockMatchesPlaying()
    {
      currentIndex := 0;
      playing := false;
      playbackStartTime := None;
    }

    /** One word back and pause; at index 0 (or below) nothing changes at
        all, not even a running playback. */
    method Back()
      modifies this
      ensures words == old(words) && text == old(text) && showUploader == old(showUploader)
      ensures old(currentIndex) > 0 ==>
                currentIndex == old(currentIndex) - 1 && !playing && playbackStartTime == None
      ensures old(currentIndex) <= 0 ==>
                currentIndex == old(currentIndex) && playing == old(playing)
                && playbackStartTime == old(playbackStartTime)
      ensures old(IndexInRange()) ==> IndexInRange()
      ensures old(ClockMatchesPlaying()) ==> ClockMatchesPlaying()
    {
      if currentIndex > 0 {
        currentIndex := currentIndex - 1;
        playing := false;
        playbackStartTime := None;
      }
    }

    /** One word forward and pause, but never past the last word; at the
        last word (or beyond) nothing changes at all. */
    method Forward()
      modifies this
      ensures words == old(words) && text == old(text) && showUploader == old(showUploader)
      ensures old(currentIndex) < |words| - 1 ==>
                currentIndex == old(currentIndex) + 1 && !playing && playbackStartTime == None
      ensures old(currentIndex) >= |words| - 1 ==>
                currentIndex == old(currentIndex) && playing == old(playing)
                && playbackStartTime == old(playbackStartTime)
      ensures old(currentIndex) < |words| ==> currentIndex < |words| || words == []
      ensures old(IndexInRange()) ==> IndexInRange()
      ensures old(ClockMatchesPlaying()) ==> ClockMatchesPlaying()
    {
      if currentIndex < |words| - 1 {
        currentIndex := currentIndex + 1;
        playing := false;
        playbackStartTime := None;
      }
    }

    /** Jump to `index` and pause. There is no range check: the position is
        in range afterwards exactly when `index` is. */
    method Seek(index: int)
      modifies this
      ensures currentIndex == index && !playing && playbackStartTime == None
      ensures words == old(words) && text == old(text) && showUploader == old(showUploader)
      ensures IndexInRange() <==> (|words| == 0 && index == 0) || 0 <= index < |words|
      ensures ClockMatchesPlaying()
    {
      currentIndex := index;
      playing := false;
      playbackStartTime := None;
    }
  }

  /** A seek past the last word leaves the position out of range; starting
      playback from there restarts at the first word. A seek to a negative
      position is not repaired that way. */
  method SeekOutOfRange(r: ReaderState, now: int)
    requires r.words != []
    modifies r
    ensures r.currentIndex == -1 && r.playing && !r.IndexInRange()
  {
    r.Seek(|r.words| + 3);
    assert !r.IndexInRange();
    r.TogglePlay(now);
    assert r.currentIndex == 0 && r.playing && r.IndexInRange();
    r.Seek(-1);
    r.TogglePlay(now);
    assert r.currentIndex == -1 && r.playing && !r.IndexInRange();
  }
}
