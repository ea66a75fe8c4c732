/** The voice the spoken announcement asks for: a Google voice for Hindi or Indian
    English if there is one, else any Hindi or Indian English voice, else the first
    voice offered, else none. */
module Voices {
  import opened Wrappers

  datatype Voice = Voice(name: string, lang: string)

  /** What the page hands to the speech facility. */
  datatype Utterance = Utterance(text: string, lang: string, voice: Option<Voice>)

  const Message: string := "Jay Ghanti, Jay Balen. Abki bar, Balen Sarkar."
  const UtteranceLang: string := "hi-IN"

  /** `s.includes(t)`: `t` occurs in `s` at some position. */
  predicate Contains(s: string, t: string)
    decreases |s|
  {
    t <= s || (s != [] && Contains(s[1..], t))
  }

  /** `t` is the slice of `s` that starts at position `i`. */
  predicate OccursAt(s: string, t: string, i: int) {
    0 <= i <= |s| - |t| && s[i..i + |t|] == t
  }

  /** `Contains` finds `t` exactly when `t` occurs in `s` at some position. */
  lemma {:induction false} ContainsIffOccurs(s: string, t: string)
    decreases |s|
    ensures Contains(s, t) <==> exists i :: OccursAt(s, t, i)
  {
    if t <= s {
      assert OccursAt(s, t, 0);
    } else if s != [] {
      ContainsIffOccurs(s[1..], t);
      if Contains(s[1..], t) {
        var i :| OccursAt(s[1..], t, i);
        assert OccursAt(s, t, i + 1);
      }
      if exists i :: OccursAt(s, t, i) {
        var i :| OccursAt(s, t, i);
        assert i != 0;
        assert s[1..][i - 1..i - 1 + |t|] == s[i..i + |t|];
        assert OccursAt(s[1..], t, i - 1);
      }
    }
  }

  /** The locale test of both searches: the language tag mentions "hi" or "en-IN". */
  predicate IsLocaleMatch(v: Voice) {
    Contains(v.lang, "hi") || Contains(v.lang, "en-IN")
  }

  /** The test of the first search: a Google voice that also passes the locale test. */
  predicate IsPreferred(v: Voice) {
    Contains(v.name, "Google") && IsLocaleMatch(v)
  }

  /** `Array.prototype.find`, giving the index of the first voice that passes `p`. */
  function FindFirst(vs: seq<Voice>, p: Voice -> bool): (r: Option<nat>)
    ensures r.Some? ==> r.value < |vs| && p(vs[r.value])
    ensures r.Some? ==> forall j :: 0 <= j < r.value ==> !p(vs[j])
    ensures r.None? ==> forall j :: 0 <= j < |vs| ==> !p(vs[j])
  {
    if vs == [] then None
    else if p(vs[0]) then Some(0)
    else match FindFirst(vs[1..], p)
      case Some(i) => Some(i + 1)
      case None => None
  }

  /** The three searches joined by `||`; `voices[0]` of an empty list is undefined. */
  function SelectVoice(vs: seq<Voice>): (r: Option<Voice>)
    ensures r.Some? ==> r.value in vs
  {
    match FindFirst(vs, IsPreferred)
    case Some(i) => Some(vs[i])
    case None =>
      match FindFirst(vs, IsLocaleMatch)
      case Some(i) => Some(vs[i])
      case None => if vs != [] then Some(vs[0]) else None
  }

  /** The utterance `speakMessage` builds: the voice is set only when one was selected. */
  function SpeakMessage(vs: seq<Voice>): (u: Utterance)
    ensures u.text == Message && u.lang == UtteranceLang
    ensures u.voice == SelectVoice(vs)
    ensures u.voice.None? <==> vs == []
  {
    Utterance(Message, UtteranceLang, SelectVoice(vs))
  }

  /** When some voice passes the Google and locale test, the first such voice is chosen. */
  lemma SelectsFirstPreferred(vs: seq<Voice>, i: nat)
    requires i < |vs| && IsPreferred(vs[i])
    requires forall j :: 0 <= j < i ==> !IsPreferred(vs[j])
    ensures SelectVoice(vs) == Some(vs[i])
  {
  }

  /** With no preferred voice, the first voice passing the locale test is chosen. */
  lemma SelectsFirstLocaleMatch(vs: seq<Voice>, i: nat)
    requires forall j :: 0 <= j < |vs| ==> !IsPreferred(vs[j])
    requires i < |vs| && IsLocaleMatch(vs[i])
    requires forall j :: 0 <= j < i ==> !IsLocaleMatch(vs[j])
    ensures SelectVoice(vs) == Some(vs[i])
  {
  }

  /** With no voice passing either test, the first voice offered is chosen. */
  lemma SelectsFirstVoice(vs: seq<Voice>)
    requires vs != []
    requires forall j :: 0 <= j < |vs| ==> !IsLocaleMatch(vs[j])
    ensures SelectVoice(vs) == Some(vs[0])
  {
  }

  /** No voice is selected exactly when the list of voices is empty. */
  lemma SelectsNoneIffEmpty(vs: seq<Voice>)
    ensures SelectVoice(vs).None? <==> vs == []
  {
  }

  /** A preferred voice, when one exists, always beats every other voice. */
  lemma PreferredWins(vs: seq<Voice>, k: nat)
    requires k < |vs| && IsPreferred(vs[k])
    ensures SelectVoice(vs).Some? && IsPreferred(SelectVoice(vs).value)
  {
  }
}
