/** The dosing-time hint of the medication screen
    (`frequency_to_timings`, modules/health_agent/app.py): an ordered
    search for key words in the normalised frequency text. */
module Medication {
  import opened Wrappers
  import opened Text

  /** The placeholder for an empty frequency, exactly as the source file
      holds it: the UTF-8 bytes of an em dash read back as Mac Roman. */
  const Placeholder := "\U{201A}\U{C4}\U{EE}"

  const ThriceTimings := "9:00 AM, 3:00 PM, 9:00 PM (after food)"
  const TwiceTimings := "9:00 AM, 9:00 PM (before/after food)"
  const OnceTimings := "9:00 AM (before/after food)"
  const FourTimings := "6:00 AM, 12:00 PM, 6:00 PM, 12:00 AM"
  const CustomTimings := "Custom / As directed"

  /** The text the key words are looked for in. */
  function Normalised(freq: string): string
  {
    Lower(Strip(freq))
  }

  /** The key-word table, tried in order: "thrice", "twice", "once" or
      "daily", "four". */
  function TimingsFor(f: string): (t: string)
    ensures t in {ThriceTimings, TwiceTimings, OnceTimings, FourTimings, CustomTimings}
  {
    if Contains(f, "thrice") then ThriceTimings
    else if Contains(f, "twice") then TwiceTimings
    else if Contains(f, "once") || Contains(f, "daily") then OnceTimings
    else if Contains(f, "four") then FourTimings
    else CustomTimings
  }

  /** `frequency_to_timings(freq)`: the placeholder for a missing or
      empty frequency, otherwise the table entry for its normalised text. */
  function FrequencyToTimings(freq: Option<string>): (t: string)
    ensures !Truthy(freq) ==> t == Placeholder
    ensures Truthy(freq) ==> t != Placeholder
  {
    if !Truthy(freq) then Placeholder else TimingsFor(Normalised(freq.value))
  }

  /** "thrice" wins over every other key word. */
  lemma ThriceFirst(f: string)
    requires Contains(f, "thrice")
    ensures TimingsFor(f) == ThriceTimings
  {
  }

  /** "once" and "daily" are tried before "four": a text holding "daily"
      and "four" but neither "thrice" nor "twice" gets the once-a-day
      timing. */
  lemma DailyBeforeFour(f: string)
    requires Contains(f, "daily") && Contains(f, "four")
    requires !Contains(f, "thrice") && !Contains(f, "twice")
    ensures TimingsFor(f) == OnceTimings
  {
  }

  /** A text of the given length holds no word longer than it. */
  lemma ShortTextHoldsNoLongWord(f: string, w: string)
    requires |f| < |w|
    ensures !Contains(f, w)
  {
  }

  /** A frequency made only of whitespace is not empty, so it gets the
      custom hint rather than the placeholder. */
  lemma BlankFrequencyIsCustom(freq: string)
    requires freq != "" && forall i :: 0 <= i < |freq| ==> IsSpace(freq[i])
    ensures FrequencyToTimings(Some(freq)) == CustomTimings
  {
    StripAllSpace(freq);
    var f := Normalised(freq);
    assert f == "";
    ShortTextHoldsNoLongWord(f, "thrice");
    ShortTextHoldsNoLongWord(f, "twice");
    ShortTextHoldsNoLongWord(f, "once");
    ShortTextHoldsNoLongWord(f, "daily");
    ShortTextHoldsNoLongWord(f, "four");
  }
}
