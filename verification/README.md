# pink: a verified model of the deck engine

pink is a browser presentation engine. A deck is a container of `section`
elements (slides), some of whose descendants carry the `fragment` class.
This project models, in Dafny, the part of pink that decides what is on
screen:

- **`deck.dfy`, module `DeckEngine`**: the navigation engine of `deck.js`.
  - `BasicDeck` flattens the slides and their fragments into one stream,
    keeps the current item and slide, and sweeps the fragments' `active`
    flags. It moves slides through the `current`, `in` and `out` classes
    and creates each slide's plugin modules from the registry and the
    slide's and deck's data attributes. It drives those modules through
    `activate`, `stabilise` and `cleanup`.
  - `Deck` adds the mirrored secondary deck of cheat mode, which runs one
    item ahead, along with the external window it posts the current item
    to, cross-window messages, touch swipes, and the `location.hash`
    bookkeeping of the `item` listener.
- **`text.dfy`, module `TextLib`**: the text utilities of `lib/text.js`
  that code-slide modules use: `minIndent`, `alignIndents`, `cleanText`,
  `splitLines` and `filterLines`, over JavaScript's `split("\n")`,
  `join("\n")`, `trimLeft`, `trimRight` and `slice`.
- **`seq.dfy`, module `SeqLib`**: the helpers of `lib/seq.js`:
  `toArray`, `flatMap`, `copyProps` and `merge`.
- **`base.dfy`, module `Base`**: the `Option` type.

How the model represents the source:
- A stream item is `SlideItem(k)` or `FragItem(k)`, where `k` is the index
  of the owning slide. That index stands for the walk up the element tree
  that `fragmentSlide` performs.
- A slide is its fragment count and its data attributes.
- The fragments' `active` classes are an `array<bool>` indexed by stream
  position.
- Each slide's class list is the set of the three tags the deck manages.
- The module calls and the `slide`/`item` notifications are ghost traces.
  Module constructors and phase methods belong to the plugins, so the
  model records which calls are made, in order, and not what they do.
- A thrown `ReferenceError` or `TypeError` is an `Outcome` of
  `Fail(error)`. The model follows the code through it: the throwing
  operation makes no change after the point where the code throws.
- `Deck` extends `BasicDeck` in the source. Here it holds its
  `BasicDeck` as `main`, and the `item` listener is the method
  `Deck.OnItem`, which runs after every successful activation.

Three behaviours of the code that a reader might not expect:
- **Item notification on every call.** Activating the item that is
  already current still emits `item` and so still syncs the mirror
  (deck.js:125-130). Its flags, tags and module calls stay as they were
  (`DeckEngine.ReactivateOnlyEmitsItem`).
- **Module instances created once.** Each slide's instances are created
  once, when the deck is constructed (deck.js:69). They are not re-created
  after a slide's cleanup.
- **Forward sweep starts at the old item.** A forward move sweeps the
  fragments from the old current item through the new one, both ends
  included (deck.js:114).

## Model

| member | source | states |
|---|---|---|
| DeckEngine.StreamLayout | deck.js:52-54 | `StreamOf`: the stream holds every slide followed immediately by its own fragments, in document order. Its length is the number of slides plus the number of fragments. |
| DeckEngine.StreamOwners | deck.js:52-54 | Every stream item belongs to one of the deck's slides. |
| DeckEngine.TwoSlideStream | deck.js:52-54 | A slide with two fragments followed by a slide with none gives the stream slide A, fragment, fragment, slide B. |
| DeckEngine.FragmentSlideIsNearestSlide | deck.js:21-33 | `FragmentSlide` and `IsFragment`: the slide found for a stream item is the nearest slide item at or before it. Every item between the two is a fragment of that slide. |
| DeckEngine.StreamWithEndSlide | deck.js:293 | Adding the end slide to the slides adds exactly one slide item to the end of the stream. |
| DeckEngine.MirrorShowsNext | deck.js:320-323 | For every main item `c`, item `c+1` exists on the mirror deck. It is the main deck's next item, or the end slide after the main deck's last item. |
| DeckEngine.ModulesForSpec | deck.js:153-167 | `ModulesFor`: the i-th instance comes from the i-th registry entry whose value is truthy. So there is exactly one instance per such entry, in registry order, and none for other entries. Each instance carries the value and the slide index. The slide's value takes precedence over the deck's. |
| DeckEngine.TruthyPositionsSpec | deck.js:157-163 | The positions that get an instance increase strictly. A registry position is among them exactly when its configuration value is truthy. |
| DeckEngine.ModulesForEveryTruthyEntry | deck.js:157-163 | Every registry entry with a truthy value gets an instance carrying that value. |
| DeckEngine.EmptySlideValueWins | deck.js:159-161 | A slide whose own value is the empty string gets no instance, even when the deck sets a value. |
| DeckEngine.PhaseCallsSpec | deck.js:169-179 | `PhaseCalls`: the i-th call goes to the instance at the i-th position defining the phase's method, and calls that method. So every such instance is called exactly once, in instance order, and no other instance is called. |
| DeckEngine.PhasePositionsSpec | deck.js:170-178 | The called positions increase strictly. An instance's position is among them exactly when it defines the phase's method. |
| DeckEngine.PhaseCallsEveryInstance | deck.js:170-178 | Every instance that defines the phase's method is called. |
| DeckEngine.RetagKeepsOneCurrent | deck.js:74-96 | Activating a slide other than the current one leaves exactly one slide tagged `current`: the new one. No slide is ever tagged both `current` and `out`. |
| DeckEngine.SweepActivatesPrefix | deck.js:112-124 | From flags set exactly up to the current item (or any flags when no item is current), the sweep leaves a fragment active exactly when it is at or before the new item. |
| DeckEngine.ActivatedKeepsOneCurrent | deck.js:74-96 | After any activation, exactly one slide is tagged `current`: the new current slide. The number of slides is unchanged. |
| DeckEngine.ReactivateOnlyEmitsItem | deck.js:125-130 | Activating the current item again emits `item` once more. Nothing else changes: no flag, tag, module call or `slide` notification. |
| DeckEngine.SwipeMirror | deck.js:258-275 | `ClassifySwipe`: mirroring a displacement left to right swaps a right swipe and a left swipe. It keeps "no swipe" as it is. |
| DeckEngine.SwipeVerticalFlip | deck.js:258-275 | `ClassifySwipe`: flipping a displacement vertically does not change how it is classified. |
| DeckEngine.SwipeIsHorizontal | deck.js:258-275 | `ClassifySwipe`: a swipe moves further along x than along y, and at least 15 pixels along x. It is a right swipe exactly when it moves towards positive x. |
| DeckEngine.SwipeIgnored | deck.js:258-275 | `ClassifySwipe`: exact diagonals are ignored, and so are movements of at most 20 pixels. |
| DeckEngine.BasicDeck.constructor | deck.js:36-72 | The slides are the container's sections, and the stream is built from them. The dataset is a copy of the container's data. No item or slide is current and no slide has tags. Every slide's instances are those `initModules` creates. |
| DeckEngine.BasicDeck.ReadDeck | deck.js:45-54 | The slides are the container's sections in order. The stream is the one those slides lay out, and every stream item belongs to one of them. The data is a copy of the container's data. |
| DeckEngine.BasicDeck.CopyData | deck.js:45 | `merge` of the container's data alone holds exactly the container's entries. |
| DeckEngine.BasicDeck.InitAllModules | deck.js:69 | After the pass over all slides, each slide's instances are the ones `initModules` creates for it. |
| DeckEngine.BasicDeck.InitModules | deck.js:153-167 | Replaces this slide's module list with the instances the registry and data call for. No other slide's list changes. |
| DeckEngine.BasicDeck.RunModules | deck.js:169-179 | Records exactly one phase's calls on this slide's instances, in order. |
| DeckEngine.BasicDeck.DeactivateSlide | deck.js:74-80 | If the slide is tagged `current`, that tag becomes `out`. Afterwards no slide is current. |
| DeckEngine.BasicDeck.ActivateSlide | deck.js:82-96 | A pending cleanup runs first and removes `out`. The previous current slide trades `current` for `out`. Then the slide's instances are activated, and the slide is tagged `current` and `in`. |
| DeckEngine.BasicDeck.ApplyFragment | deck.js:99-106 | Every fragment in the range gets the given flag. No other flag changes. |
| DeckEngine.BasicDeck.SweepFragments | deck.js:112-124 | From a state where the fragments up to the current item are active, the sweep leaves a fragment active exactly when it is at or before the new item. Flags outside the swept range keep their values. |
| DeckEngine.BasicDeck.ActivateItem | deck.js:98-131 | An index past the end fails with the length and the index and changes nothing. So does a negative index, which names no element. Otherwise the new state is `Activated` of the old one. The item and its slide become current, and the fragments are swept so that one is active exactly when it is at or before the item. When the slide changes it is retagged and activated, with its module calls, and `slide` is emitted. `item` is always emitted, last. The module lists never change. |
| DeckEngine.BasicDeck.NextItem | deck.js:133-141 | Targets `min(current+1, length-1)`, or 0 from no item. A move leaves the state `Activated` leaves for that item: flags, tags, module calls and notifications. When already there, nothing changes. An empty deck fails. |
| DeckEngine.BasicDeck.PreviousItem | deck.js:143-151 | Targets `max(current-1, 0)`, or 0 from no item. A move leaves the state `Activated` leaves for that item. When already there, nothing changes. An empty deck fails as out of range, asking for item 0. |
| DeckEngine.BasicDeck.TransitionEnd | deck.js:181-190 | A slide tagged `out` loses `out` and runs cleanup. Otherwise a slide tagged `in` loses `in` and runs stabilise. Otherwise nothing happens. The invariant is kept. |
| DeckEngine.BasicDeck.CleanupAll | deck.js:204-205 | Runs every slide's cleanup, in slide order. |
| DeckEngine.Deck.constructor | deck.js:212-213 | A deck over the sections whose main deck is in its fresh state. The main deck's stream is built from the sections, its registry is the one passed in, and its data is a copy of the container's data. Every slide's instances are those `initModules` creates from that registry and data. It is not in cheat mode and has no external window, no touch in progress and no posts. |
| DeckEngine.Deck.Start | deck.js:233-242 | With a hash, behaves exactly as `activateItem` of that item: an item past the end fails and changes nothing. Without a hash, behaves as `nextItem`: item 0 becomes current, and an empty deck fails and changes nothing. |
| DeckEngine.Deck.OnItem | deck.js:225-228 | Records the item in the hash. The mirror ends in the state `Activated` leaves for the item after it, or unchanged if that item does not exist. The item is posted exactly when an external window is open. The main deck is left as given. |
| DeckEngine.Deck.SyncAux | deck.js:320-327 | The mirror's new state is `Activated` for the item after the current one, where `null + 1` is 1, or unchanged when that item does not exist. It fails only when no item is current and the deck is empty. After a failure nothing is posted. Otherwise the current item is posted when a window is open. |
| DeckEngine.Deck.SyncMirror | deck.js:321-323 | The mirror's new state is `Activated` for the item after the main deck's current one. It fails only when no item is current and the deck is empty; it then reports the mirror's length and item 1, and the mirror is unchanged. |
| DeckEngine.Deck.MoveMain | deck.js:98-131 | An index past the end or negative fails as `activateItem` does, and leaves the main deck unchanged. Any other index leaves the main deck in the state `Activated` gives. |
| DeckEngine.Deck.ActivateItem | deck.js:98-131 | An index past the end or negative fails as `activateItem` does, and nothing changes: main deck, mirror, hash and posts. A valid index leaves the main deck in the `Activated` state and records the item in the hash. The mirror moves to the next item, and the item is posted when a window is open. |
| DeckEngine.Deck.MainNext | deck.js:133-141 | A move leaves the main deck in the `Activated` state for its next item. Without a move it is unchanged, and an empty deck fails. |
| DeckEngine.Deck.MainPrevious | deck.js:143-151 | A move leaves the main deck in the `Activated` state for its previous item. Without a move it is unchanged, and an empty deck fails as out of range. |
| DeckEngine.Deck.NextItem | deck.js:133-141 | Without a move, nothing changes: main deck, mirror, hash and posts. A move leaves the main deck in the `Activated` state for the next item, records it in the hash, moves the mirror to the item after, and posts it when a window is open. An empty deck fails. |
| DeckEngine.Deck.PreviousItem | deck.js:143-151 | Without a move, nothing changes: main deck, mirror, hash and posts. A move leaves the main deck in the `Activated` state for the previous item, records it in the hash, moves the mirror to the item after, and posts it when a window is open. An empty deck fails. |
| DeckEngine.Deck.OnMessage | deck.js:329-335 | A cross-origin message, or one without `item`, changes nothing. `item: null` fails and changes nothing: on an empty deck as out of range with `null` requested, otherwise as naming no element. Any other item behaves exactly as `activateItem` of it, failures included. |
| DeckEngine.Deck.OnTouchStart | deck.js:245-249 | Records where the first touch started, or clears the record when there is no touch. |
| DeckEngine.Deck.OnTouchMove | deck.js:251-256 | Records where the first touch is now. A move with no touch on record throws and leaves the state as it was. |
| DeckEngine.Deck.OnTouchEnd | deck.js:258-275 | Clears the touch. A touch that never moved, or no touch, changes nothing else. A right swipe behaves exactly as `previousItem` and a left swipe as `nextItem`, hash and posts included. |
| DeckEngine.Deck.FollowSwipe | deck.js:265-273 | No swipe changes nothing. A right swipe behaves exactly as `previousItem` and a left swipe as `nextItem`: main deck, mirror, hash and posts. |
| DeckEngine.Deck.ToggleCheatMode | deck.js:277-283 | Switches cheat mode. The main deck, the hash and the touch in progress never change, and nothing outside the deck and its mirror is written. Entering builds a fresh mirror, with a fresh flag array, in its fresh state and syncs it as `InitCheatMode` does: the mirror is then `Activated` one item ahead, and the current item is posted when the window opened (an empty deck with no current item fails the sync instead). Leaving runs the mirror's cleanup calls, drops the mirror and the window, and posts nothing. |
| DeckEngine.Deck.InitCheatMode | deck.js:285-301 | Builds a fresh mirror, with a fresh flag array, over the main slides plus the end slide, with the main deck's data and registry and every slide's instances created. It starts from the fresh state and is then synced to the `Activated` state one item ahead. The sync fails only for an empty deck with no current item, leaving the mirror fresh and posting nothing. Otherwise the current item is posted when the window opened. The main deck is unchanged. |
| DeckEngine.Deck.OpenMirror | deck.js:286-298 | Enters cheat mode with a new mirror over the main stream plus one end-slide item, in its fresh state with every slide's instances created, and records whether the window opened. |
| DeckEngine.Deck.NewMirror | deck.js:289-295 | The mirror's slides are the main deck's slides plus the end slide. Its stream is the main stream plus one slide item, and its container data is the main deck's dataset. |
| DeckEngine.Deck.CleanupCheatMode | deck.js:303-318 | Runs the mirror's cleanup, then drops the mirror and the external window. The main deck, the hash, the posts and the touch in progress are untouched. |
| TextLib.Split | lib/text.js:2 | `split("\n")` gives at least one line, and no line contains a newline. |
| TextLib.JoinSplit | lib/text.js:40-41 | Joining the lines of a split gives back the text. |
| TextLib.SplitJoin | lib/text.js:32-36 | Splitting the join of newline-free lines gives back those lines. |
| TextLib.TrimLeftSpec | lib/text.js:4 | `trimLeft` drops exactly the leading whitespace: the result is a suffix that does not start with whitespace. |
| TextLib.TrimRightSpec | lib/text.js:12 | `trimRight` drops exactly the trailing whitespace: the result is a prefix that does not end with whitespace. |
| TextLib.IndentIsTrimmedLength | lib/text.js:4 | A line's indent is its length minus the length of its left-trimmed form. |
| TextLib.BlankIff | lib/text.js:3 | A line is blank after trimming exactly when every character in it is whitespace. |
| TextLib.IndentAt | lib/text.js:4 | A line whose first non-whitespace character is at position `d` has indent `d` and is not blank. |
| TextLib.MinIndent | lib/text.js:1-7 | `null` exactly when every line of the text is blank. Otherwise the least indent of a non-blank line: a value some non-blank line has and none goes below. |
| TextLib.MinIndentOfSpec | lib/text.js:1-7 | The result is `null` exactly when every line is blank. Otherwise it is the smallest indent of a non-blank line: a value some non-blank line has and none goes below. |
| TextLib.MinIndentExtends | lib/text.js:2-5 | A reduce step whose line is blank or no less indented keeps the minimum found so far. |
| TextLib.MinIndentAtLast | lib/text.js:2-5 | A reduce step whose non-blank line is less indented than every earlier non-blank line makes that line's indent the minimum. |
| TextLib.AlignIndents | lib/text.js:9-14 | The result has the same number of lines as the input. Each line is the input line with its first `minIndent` characters removed (0 when `null`) and trailing whitespace trimmed. |
| TextLib.AlignedLineIndent | lib/text.js:12 | Removing at most a line's indent keeps it non-blank and lowers its indent by exactly that amount. |
| TextLib.AlignedLineBlank | lib/text.js:12 | A blank line stays blank. |
| TextLib.AlignIndentsRemovesCommonIndent | lib/text.js:9-14 | After alignment the minimum indent is 0, or `null` when every line is blank. |
| TextLib.AlignedAllBlank | lib/text.js:9-14 | When every line is blank, every aligned line is blank too. |
| TextLib.AlignedMinZero | lib/text.js:9-14 | Removing the least indent leaves some non-blank line at indent 0, so the new minimum is 0. |
| TextLib.DropLeadingNewlinesSpec | lib/text.js:18 | `DropLeadingNewlines`: the loop removes exactly the leading newlines. The result is a suffix that does not start with one. |
| TextLib.DropTrailingNewlinesSpec | lib/text.js:19 | `DropTrailingNewlines`: the loop removes exactly the trailing newlines. The result is a prefix that does not end with one. |
| TextLib.StrippedEnds | lib/text.js:18-19 | After both loops the text neither starts nor ends with a newline. |
| TextLib.ReplaceAll | lib/text.js:21 | A global replace with a replacement no longer than the pattern never lengthens the text. |
| TextLib.DecodeEntities | lib/text.js:21 | Entity decoding never lengthens the text. |
| TextLib.ReplaceAllNoMatch | lib/text.js:21 | A global replace of a pattern that never occurs leaves the text unchanged. |
| TextLib.ReplaceAllKeepsEnds | lib/text.js:21 | Replacing with newline-free text never makes the text start or end with a newline. |
| TextLib.DecodeEntitiesKeepsEnds | lib/text.js:21 | Entity decoding never makes the text start or end with a newline. |
| TextLib.AmpersandDecodedLast | lib/text.js:21 | `&amp;lt;` decodes to `&lt;`, not `<`, because `&amp;` is replaced last. |
| TextLib.CleanText | lib/text.js:16-24 | The result is the aligned text with its surrounding newlines removed, decoded only for `"html"`, plus a final newline. It always ends in a newline. When longer than one character, it neither starts with a newline nor has one just before the final newline. |
| TextLib.CleanedEnds | lib/text.js:20-23 | Decoding and adding the newline keep the ends of a body that starts and ends with a non-newline character. |
| TextLib.ClampIndex | lib/text.js:33-34 | `slice` clamps its index into the array. An index already in range is kept. |
| TextLib.SplitLines | lib/text.js:26-37 | `k` split points give `k+1` pieces, and no points give `[text]`. |
| TextLib.SplitLinesRoundTrip | lib/text.js:29-36 | For ascending points strictly between 0 and the line count, the pieces concatenate back to the text, and every piece but the last ends in a newline. |
| TextLib.LastCutEndsInNewline | lib/text.js:33-36 | When the text before a cut is split again at smaller line numbers, the last of those pieces still ends in the newline given back. |
| TextLib.UnmatchedMembers | lib/text.js:41 | A line survives the filter exactly when it was in the input and does not match. |
| TextLib.UnmatchedKeepsAll | lib/text.js:41 | When no line matches, the filter keeps every line, in order. |
| TextLib.FilterLines | lib/text.js:39-42 | The lines of the result are exactly the input lines the pattern does not match, in order. When every line matches, the result is empty. |
| TextLib.FilterLinesIdempotent | lib/text.js:39-42 | Filtering twice gives the same text as filtering once. |
| SeqLib.ToArray | lib/seq.js:1-7 | The same length, and element `i` of the result is element `i` of the input. |
| SeqLib.FlattenLength | lib/seq.js:9-15 | `Flatten`: the concatenation's length is the sum of the pieces' lengths. |
| SeqLib.FlattenAppend | lib/seq.js:9-15 | `Flatten`: flattening a concatenation concatenates the flattenings. |
| SeqLib.FlatMap | lib/seq.js:9-15 | The result is `f(s[0]) + ... + f(s[n-1])`, in order. Its length is the sum of the piece lengths, and an empty input gives an empty result. |
| SeqLib.UnionKeys | lib/seq.js:27-31 | `Union`: the merged keys are exactly the union of the arguments' keys. |
| SeqLib.UnionLastWins | lib/seq.js:27-31 | `Union`: for a key in several arguments, the last argument holding it decides its value. |
| SeqLib.UnionStep | lib/seq.js:28-30 | One more reduce step lays the next argument over the union so far. |
| SeqLib.CopyProps | lib/seq.js:17-25 | Every key of the source is written into the target with the source's value. Other keys keep their values, and the target itself is returned. |
| SeqLib.Merge | lib/seq.js:27-31 | The result is a fresh object holding the right-biased union of the arguments. No argument, the first included, is changed. |

## Left out

- Browser plumbing. This covers the DOM wrapping of slide children (deck.js:56-65), event registration and removal, `rescale`'s floating-point zoom, `toggleFullscreen`, mousetrap key bindings and `onbeforeunload`. None of it decides what the deck shows.
- Cross-window transport. `window.open` is the parameter `windowOpened` of `ToggleCheatMode`. `postMessage` is the ghost trace `posted`. The message's origin check is the parameter `sameOrigin` of `OnMessage`.
- Hash parsing: the hash is held as the item number it names. Parsing `#<digits>` with its regular expression and writing the number back as text are not modelled.
- Mirror construction: the mirror deck's container is built by copying the main deck's HTML and data attributes. The model takes the copy to yield the main deck's sections plus the end slide, with the main deck's dataset. The folding of attribute names to camelCase in that round trip is not modelled.
- Document structure: a slide is its fragment count and data attributes. Nested sections, and fragments outside any section, are not modelled.
- DeckEngine.BasicDeck.TransitionEnd: takes a slide index. A `transitionend` event whose target is a fragment or another element is not modelled.
- Class lists: only the `current`, `in`, `out` and `active` classes are modelled. The slides are taken to carry none of them initially.
- DeckEngine.ModulesFor: the registry `deckModules` is a sequence of named entries, taken in the order a `for...in` loop visits the object's keys (deck.js:157). Integer-like keys come first in that order. The model does not derive that order, and it does not exclude duplicate names, which a JavaScript object cannot hold.
- Plugin modules: only the order and choice of their constructor and phase calls are modelled, not their effects. A constructor or phase method that throws is not modelled.
- DeckEngine.ClassifySwipe: swipes are classified on integer displacements. `r > 20` becomes `x*x + y*y > 400`, and the `atan2` sector tests become `|y| < x` and `|y| < -x`. Floating-point rounding at exactly 45 degrees is not modelled.
- DeckEngine.Deck.OnMessage: the `item` field is an integer or `null`. Strings, fractions and other values a message could carry are not modelled. Neither is a message whose `data` is `null` or `undefined`, on which reading `e.data.item` (deck.js:331) throws a TypeError.
- TextLib.FilterLines: the regular expression is a predicate on lines. The `lastIndex` state that a global regular expression carries between `test` calls is not modelled.
- Whitespace: `trimLeft` and `trimRight` use ECMAScript's whitespace and line-terminator characters, as listed in `TextLib.IsSpace`. Later changes to that set, and strings as UTF-16 code units with surrogate pairs, are not modelled.
- Emitted values: the `slide` notification carries the slide's index rather than its element.
