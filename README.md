# Ghanti page: the vote gate, the poll percentage and the voice choice

The page `script.js` rings a bell, then speaks a slogan, and runs a mock poll whose count is
kept in the browser's local storage. Most of the file hands work to the browser: audio,
speech synthesis and DOM updates. This project models the three pieces of it that decide
something.

- **The vote gate** (module `VoteGate`). The page holds an in-memory count and two
  local-storage entries: the has-voted flag `balen_v2_hasVoted` and the persisted count
  `balen_global_votes`. It also holds the vote button and its message.
  - `Load` and `Click` are pure functions that state what page load and a click on the vote
    button do.
  - Class `VoteGate.Page` runs the same steps in place, with a mutable count, a map-valued
    store and a UI record. Its constructor and `ClickVote` are proved to produce exactly
    `Load` and `Click` of the old state. They also keep the gate invariant: the display shows
    the count, a stored flag means a disabled button, and the count is the loaded one or one
    more.
- **The count as a JavaScript number** (module `Numbers`). The count is an integer or NaN.
  `NaN` is what `parseInt` of a non-numeric stored string gives, and `++` keeps it NaN. The
  module models `toString()`, which writes the count, and base-ten `parseInt`, which reads it
  back. It proves the round trip for every value.
- **The poll percentage** (module `Poll`). `count / 100000 * 100`, capped at 100, in exact
  real arithmetic.
- **The voice choice** (module `Voices`). This is the three-tier `find` chain of
  `speakMessage`, followed by the utterance it builds.

Local storage follows JavaScript truthiness. `getItem` gives null or a string, and both null
and `""` are false. So a stored flag `"false"` still counts as voted, and an empty stored
count falls back to the base 12450.

Three things the code does not do:

- It does not clamp the count to the base: a stored `"5"` loads as 5
  (`VoteGate.LoadNoBaseClamp`).
- It caps the percentage at 100 only, with no lower bound, so a negative count gives a
  negative percentage (`Poll.Percentage`).
- It declares the counter endpoint `API_URL` (script.js:74) but never fetches it, so no
  remote count is read or incremented.

## Model

| member | source | states |
|---|---|---|
| Numbers.NatDigits | script.js:106 | the decimal digits of a non-negative count are non-empty, all digits, and have no leading zero |
| Numbers.NumToString | script.js:106 | the string persisted for any count is non-empty, so a stored count is always truthy on reload |
| Numbers.DigitPrefix | script.js:94 | `parseInt` reads the longest run of digits at the start and stops at the first non-digit |
| Numbers.ParseInt | script.js:94 | `parseInt` is NaN exactly when no digit follows the optional sign; a string starting with a digit parses to a non-negative value |
| Numbers.DigitPrefixOfDigits | script.js:94 | a digit string followed by a non-digit is read in full and no further |
| Numbers.DigitsValueOfNatDigits | script.js:94 | reading the decimal digits of `n` gives back `n` |
| Numbers.IntToStringParses | script.js:94 | `parseInt(n.toString() + tail)` is `n` for every integer `n` and every tail that does not start with a digit |
| Numbers.NumRoundTrip | script.js:92-106 | the count written at line 106 parses back to the same count at line 94, NaN included |
| Poll.Percentage | script.js:84-85 | never above 100; equal to `count * 100 / 100000` up to the goal; exactly 100 from the goal on; non-negative for non-negative counts and negative for negative counts (no lower clamp) |
| Poll.PercentageMonotone | script.js:84-85 | a larger count never shows a smaller percentage |
| Poll.PercentageStrictBelowGoal | script.js:84 | below the goal, a larger count shows a strictly larger percentage |
| Voices.ContainsIffOccurs | script.js:46-47 | `includes` holds exactly when the substring occurs at some position |
| Voices.FindFirst | script.js:46-47 | `find` returns the first voice that passes the test, or nothing when no voice does |
| Voices.SelectVoice | script.js:46-48 | the chosen voice is always one of the offered voices |
| Voices.SpeakMessage | script.js:37-54 | the utterance carries the fixed slogan, the language `hi-IN` and the voice `SelectVoice` chooses, so the tier lemmas fix its voice; it has no voice exactly when no voice is offered |
| Voices.SelectsFirstPreferred | script.js:46 | when some voice is a Google voice for Hindi or Indian English, the first such voice in list order is chosen |
| Voices.SelectsFirstLocaleMatch | script.js:47 | with no such Google voice, the first voice whose language mentions `hi` or `en-IN` is chosen |
| Voices.SelectsFirstVoice | script.js:48 | with no locale match either, the first voice is chosen |
| Voices.SelectsNoneIffEmpty | script.js:46-50 | no voice is set exactly when the list of voices is empty |
| Voices.PreferredWins | script.js:46 | if any preferred voice exists, the chosen voice is a preferred one |
| VoteGate.GetAfterSet | script.js:105-106 | after `setItem(key, value)`, `getItem(key)` returns `value` and every other key reads as before |
| VoteGate.LoadCount | script.js:78-95 | load starts from the base 12450 exactly when no non-empty count is stored, otherwise from the parsed stored count, and load writes nothing to storage |
| VoteGate.LoadDisables | script.js:96-100 | a stored flag leaves the button disabled, labelled "Voted", with the message shown; without one the markup's UI stays, showing the count |
| VoteGate.LoadNoBaseClamp | script.js:92-95 | a stored count below the base is taken as it is, with no clamp to the base |
| VoteGate.LoadEstablishesInvariant | script.js:92-100 | after load, the gate invariant holds with the loaded count as the initial count |
| VoteGate.ClickWhenNotVoted | script.js:103-109 | the first vote adds exactly one, stores the flag, disables the button, keeps every other storage entry, and persists a count that parses back to the new count |
| VoteGate.ClickWhenVoted | script.js:103 | once the flag is stored, a click changes neither the count, the storage nor the UI |
| VoteGate.ClickIdempotent | script.js:102-111 | a second click has no effect |
| VoteGate.ClicksAtMostOnce | script.js:102-111 | any number of clicks acts like a single click, so the count is the initial one or one more |
| VoteGate.ClickPreservesInvariant | script.js:102-111 | a click keeps the gate invariant |
| VoteGate.ReloadAfterVote | script.js:92-109 | reloading after a vote shows the same count, with the button disabled |
| VoteGate.Page.constructor | script.js:92-100 | the page set-up leaves exactly the state `Load` describes and establishes the gate invariant |
| VoteGate.Page.UpdatePollUI | script.js:80-89 | the poll display now shows the given count and nothing else in the UI changes |
| VoteGate.Page.DisableVoting | script.js:113-117 | the UI afterwards is `Disable` of the UI before |
| VoteGate.Page.ClickVote | script.js:102-111 | the click handler leaves exactly the state `Click` describes and keeps the gate invariant |

## Left out

- Bell sound, shake animation and speech calls (script.js:5-34, 40, 58, 62-64). These are
  `pause`, `play`, `speak`, `cancel`, `onvoiceschanged` and the CSS reflow. They are calls into
  the browser with no logic of the page's own.
- The race between the `ended` event, the 2.5 s timer and a rejected `play()` (script.js:17-33)
  depends on the timing of browser events. Nothing deregisters the `.catch` path. If it fires
  after the timer, `speakMessage` runs a second time, so "speaks exactly once" is not
  something the code guarantees.
- Voices.SpeakMessage: the speaking rate 0.85 and pitch 1.0 (script.js:55-56) are
  floating-point settings passed to the browser and are not part of the utterance record.
- `toLocaleString` and `toFixed(1)` (script.js:81, 87) and the progress-bar width text
  (script.js:88) are browser number formatting. The UI record keeps the count the display
  shows, not the rendered text.
- Poll.Percentage: exact real arithmetic. The page divides in 64-bit floating point, whose
  rounding is not modelled. A NaN count, which gives a NaN percentage, is not covered either.
- Numbers.Num.Inc: counts are unbounded integers. The precision loss of 64-bit floats above
  2^53, and the exponent notation `toString` uses from 10^21 on, are not modelled.
- Numbers.ParseInt: leading whitespace, which `parseInt` skips, is not modelled. Neither is
  the `0x` prefix, which it reads as hexadecimal. A stored count of that form reads as NaN or
  0 in the model. The page itself only ever writes plain decimal strings.
- Remote counter synchronisation: `API_URL` (script.js:74) is never fetched.
- The initial state of the button and message comes from the page's markup, which is not
  part of this model. `Load` and the constructor take it as a parameter.
- ClicksAtMostOnce, GateInvariant and Page.ClickVote: storage writes are taken to succeed.
  In a browser `setItem` can throw when storage is full or blocked. A throw at script.js:105
  comes after the `++` at line 104, so the count rises, no flag is stored and the button stays
  enabled. Each later click then raises the count again. A throw from `getItem` at
  script.js:92 stops the set-up before the click handler is installed.
- ClicksAtMostOnce, GateInvariant and Page.ClickVote: the store is taken to change only
  through this page. Real local storage is shared with other tabs of the same origin and can
  be cleared while the page is open.
- Click: a click is modelled whatever the button's state. The browser delivers no click to a
  disabled button. The code itself does not test `disabled`, so `Click` on a disabled button
  with no flag stored would still count a vote.
