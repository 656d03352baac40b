# Screen reader content script — a Dafny model

The extension's content script (`content.js`) turns a web page into
something that can be read aloud from the keyboard. Ctrl+Space switches
between Browse mode and Typing mode. In Browse mode:

- P, H, L and B move the focus to the next paragraph, heading, link or
  button that is worth reading. D does the same for landmarks, M jumps to
  the main content, and G finds the next image and reads its description.
- ArrowDown and ArrowUp read the focused element sentence by sentence.
- A click focuses the nearest readable element around the target.

Each selection draws one highlight marker over the focused element. Its
label is queued on a debounce timer and spoken when the timer fires, unless
speech is disabled in the settings.

This project models that core over a snapshot of the page. The snapshot is
a sequence of element records in document order.

- `Text` holds white-space handling: `trim`, the collapse of white-space
  runs and ASCII lower-casing.
- `Dom` holds element records, selectors, `querySelector` and `closest`.
- `Label` is `extractLabel`.
- `Navigator` covers `isValidElement` and `getNext`.
- `Sentences` covers `splitIntoSentences`. Its two regular expressions are
  written as hand-made scanners, and each scanner is proved equal to the
  pattern it stands for.
- `AltText` is `generateAltText`.
- `Controller` gives every listener as a transition on a `Session` value.
  It also holds the lemmas about those transitions.
- `Script.Reader` is a class whose fields are the script's module-level
  variables: `BROWSE_MODE`, `SETTINGS.enabled`, `lastElement`,
  `currentSentences`, `sentenceIndex`, the markers in the page, the pending
  timer and what was spoken. Each listener is a method that updates those
  fields step by step. Each method is proved to reach the state its
  `Controller` transition describes. The entry points keep the invariant
  `Controller.Consistent`.
- `Cases` runs the sentence splitter on texts of fixed shapes built from
  arbitrary words and phrases, including "Hello world. How are you?".

Some of the script's quirks are kept as written, not corrected:

- Only P, H, L and B reset the sentence cursor. A click, D, M and G move
  the focus but leave the cursor where it was.
- ArrowUp does not check the cursor against the number of sentences.
- M does not check that the element it jumps to is valid.
- A lone sentence gets a second full stop: `"Hello world."` reads as
  `"Hello world.."`.
- A stop inside a word makes the scanner skip ahead: `"e.g. Foo."` gives
  `["g.", "Foo."]`.

So a change of focus by click, D, M or G keeps the old cursor, and ArrowUp
can leave the cursor beyond the last sentence of the focused element. The
lemmas state both as the code does them.

## Model

| member | source | states |
|---|---|---|
| Text.LowerAscii | content.js:218 | same length; each character is kept, or is an ASCII capital turned into its lower-case letter |
| Text.TrimStart | content.js:108 | the result is a suffix of the input and does not start with white space |
| Text.TrimEnd | content.js:108 | the result is a prefix of the input and does not end with white space |
| Text.TrimStartDropsSpace | content.js:108 | everything `trimStart` removes is white space |
| Text.TrimEndDropsSpace | content.js:108 | everything `trimEnd` removes is white space |
| Text.TrimIsTrimmed | content.js:108 | a trimmed text has white space at neither end |
| Text.TrimSlice | content.js:108 | `trim` returns a contiguous slice of its input |
| Text.TrimBlank | content.js:108 | `trim` gives "" exactly for white-space-only text |
| Text.TrimEmptyIsBlank | content.js:108 | text that `trim` empties is all white space |
| Text.TrimLeadingSpace | content.js:108 | `trim` removes one space put before a trimmed non-empty text |
| Text.TrimTrailingSpace | content.js:108 | `trim` removes one space put after a trimmed non-empty text |
| Text.CollapseIsCollapsed | content.js:108 | after `replace(/\s+/g, " ")` no two white-space characters are adjacent; the result is empty only for empty input and starts with white space exactly when the input does |
| Text.CollapseFixed | content.js:108 | text with no white-space run is left unchanged by the collapse |
| Text.TrimKeepsCollapsed | content.js:108 | trimming does not create a white-space run |
| Text.NormalizeIsNormal | content.js:108 | collapse-then-trim output is trimmed and has no white-space run |
| Text.NonSpaceAppend | content.js:108 | the visible characters of a concatenation are those of its parts, in order |
| Text.CollapseKeepsNonSpace | content.js:108 | the collapse keeps every visible character, in order |
| Text.TrimStartKeepsNonSpace | content.js:108 | `trimStart` keeps every visible character |
| Text.TrimEndKeepsNonSpace | content.js:108 | `trimEnd` keeps every visible character |
| Text.NormalizeKeepsNonSpace | content.js:108 | collapse-then-trim keeps every visible character, in order |
| Text.NormalizeIdempotent | content.js:108 | normalising twice is the same as normalising once |
| Text.NormalFixed | content.js:108 | normalised text is a fixed point of normalisation |
| Text.TrimmedFixed | content.js:108 | trimmed text is a fixed point of `trim` |
| Text.NormalizeBlank | content.js:107-108 | normalisation gives "" exactly for white-space-only text |
| Text.NormalizeLength | content.js:108 | normalisation never lengthens a text and keeps at least its visible characters |
| Text.NonSpaceShorter | content.js:108 | the visible characters are no more than the whole text |
| Text.CollapseShorter | content.js:108 | the collapse never lengthens a text |
| Text.IsSpace | content.js:108 | the model of the `\s` class: the ECMAScript white-space and line-terminator characters; used by every `Text` lemma |
| Text.Trim | content.js:108 | the model of `trim`; its contract is stated by TrimIsTrimmed, TrimSlice, TrimBlank and the TrimStart/TrimEnd lemmas |
| Text.Collapse | content.js:108 | the model of `replace(/\s+/g, " ")`; its contract is stated by CollapseRun, CollapseIsCollapsed and CollapseKeepsNonSpace |
| Text.Normalize | content.js:108 | the model of `replace(/\s+/g, " ").trim()`; its contract is stated by NormalizeIsNormal, NormalizeKeepsNonSpace and NormalizeIdempotent |
| Text.TrimStartAppend | content.js:108 | leading white space is only removed from the first part of a concatenation whose first part ends visibly |
| Text.TrimStartBlank | content.js:108 | a blank prefix in front of visible text is removed whole |
| Text.CollapseAppend | content.js:108 | the collapse splits over a concatenation whose first part ends visibly |
| Text.CollapseLeadingRun | content.js:108 | a leading run of white space becomes one space |
| Text.CollapseRun | content.js:108 | each maximal run of white space between visible text becomes exactly one space, and the text around it is collapsed on its own |
| Text.Utf16Length | content.js:125 | the JavaScript `length`: at least one and at most two code units per character, and one per character exactly when every character is in the basic plane |
| Text.Utf16Append | content.js:125 | code units add up over a concatenation |
| Text.TrimUnits | content.js:108 | `trimStart` and `trimEnd` never add code units |
| Text.CollapseUnits | content.js:108 | the collapse never adds code units |
| Text.NormalizeUnits | content.js:108 | normalisation never adds code units |
| Dom.Matches | content.js:135 | the model of the selectors of P, H, L, B, D, G and the click; `type` is compared without regard to ASCII case |
| Dom.Closest | content.js:151 | the model of `closest`; its contract is that of First over the target and its ancestors, stated by ClickOutcome |
| Dom.First | content.js:151 | None exactly when nothing matches; otherwise the match with no earlier match |
| Dom.FindMain | content.js:332 | None exactly when there is neither a `main` element nor a role="main" element; the first `main` element when there is one, else the first role="main" element |
| Dom.Resolve | content.js:186 | the first live element with the remembered element's id; a node that has left the page keeps its record, with `innerText` read as `textContent` |
| Label.LabelSource | content.js:99-105 | the model of the `aria-label`/`alt`/`innerText`/`textContent`/tag chain; its contract is stated by BlankAriaLabelWins and TextlessLabelIsTag |
| Label.ExtractLabel | content.js:98-109 | the model of `extractLabel`; its contract is stated by LabelIsClean and LabelIsStable |
| Label.LabelIsClean | content.js:98-109 | the label has no white space at either end and no white-space run, and keeps every visible character of the first truthy source, in order |
| Label.LabelIsStable | content.js:108 | normalising a label again leaves it unchanged |
| Label.BlankAriaLabelWins | content.js:99-108 | a white-space-only aria-label is truthy, so it wins and the label is "" |
| Label.TextlessLabelIsTag | content.js:99-105 | an element with no text of its own is labelled by its tag name |
| Navigator.IsValidElement | content.js:115-128 | the model of `isValidElement`: visible, in the flow, and a label of at least three UTF-16 code units; its contract is stated by ValidityByText, OutOfFlowIsInvalid and TextlessValidity |
| Navigator.ValidityByText | content.js:115-128 | for a visible element in the page flow: valid exactly when the label has at least three UTF-16 code units; three visible source characters make it valid, a source under three code units makes it invalid |
| Navigator.TwoEmojiLabelIsValid | content.js:125 | a label of two astral characters is four code units long, so it is valid although it holds two characters |
| Navigator.Filter | content.js:135 | the model of `Array.prototype.filter`; its contract is stated by FilterExact and FilterInOrder |
| Navigator.Candidates | content.js:135 | the model of `querySelectorAll(selector)` filtered by `isValidElement`; its contract is stated by CandidatesExact, CandidatesInOrder and CandidatesDistinct |
| Navigator.OutOfFlowIsInvalid | content.js:116-122 | null, zero-sized, fixed and sticky elements are never valid |
| Navigator.TextlessValidity | content.js:115-128 | an element with no text is valid exactly when it is visible, in the flow and its tag has three letters or more; an empty `p`, `a` or `h1` never is |
| Navigator.FilterExact | content.js:135 | `filter` keeps exactly the elements it accepts |
| Navigator.FilterInOrder | content.js:135 | `filter` keeps document order |
| Navigator.CandidatesExact | content.js:135 | the candidates are exactly the valid elements the selector matches |
| Navigator.CandidatesInOrder | content.js:135 | the candidates are in document order |
| Navigator.CandidatesDistinct | content.js:135 | no element is a candidate twice |
| Navigator.IndexOf | content.js:138 | -1 exactly when the element is absent; otherwise its first position |
| Navigator.IndexOfDistinct | content.js:138 | among distinct elements, the position of the i-th element is i |
| Navigator.Step | content.js:136-139 | None exactly for an empty list; otherwise a member of the list |
| Navigator.StepAdvances | content.js:138-139 | from position i the step gives element i+1, or the first element after the last |
| Navigator.GetNext | content.js:134-140 | null exactly when no valid element matches; any result is a valid matching element of the page |
| Navigator.GetNextRestarts | content.js:136-139 | a current element that is missing, stale or of another kind gives the first match |
| Navigator.GetNextSteps | content.js:134-140 | from the i-th match the next is match i+1, wrapping to the first |
| Sentences.SplitIntoSentences | content.js:165-176 | the model of `splitIntoSentences`; its contract is stated by SentencesAreSpoken, FallbackCount and the Cases lemmas |
| Sentences.Segment | content.js:168-175 | the choice between the matches and the comma pieces; its contract is stated by SegmentIsSpoken |
| Sentences.FindAll | content.js:171 | the model of `match(/[^.!?]+[.!?]+(\s|$)/g)`; its contract is stated by MatchAtIsPattern, FindAllShaped and FindAllFirst |
| Sentences.ClosedAhead | content.js:175 | the model of the lookahead `(?![^()]*\))`; its contract is stated by ClosedAheadIsPattern |
| Sentences.Pieces | content.js:175 | the comma pieces scanned from a position; its contract is stated by PiecesFirst, PiecesShape and PiecesJoin |
| Sentences.CommaSplit | content.js:175 | the model of `split(/,(?![^()]*\))/g)`; its contract is stated by PiecesFirst and CommaSplitJoins |
| Sentences.TrimEach | content.js:172 | the model of `map(s => s.trim())`; its contract is stated by TrimmedMatches |
| Sentences.Terminate | content.js:175 | the model of `map(s => s.trim() + ".")`; its contract is stated by ClosedPieces |
| Sentences.RunEnd | content.js:171 | the end of the maximal run of (non-)terminal punctuation starting at p |
| Sentences.RunEndCovers | content.js:171 | every character inside the run has the run's kind |
| Sentences.RunEndUnique | content.js:171 | any position that ends such a run is the run's end |
| Sentences.MatchAt | content.js:171 | a match at p spans at least two characters |
| Sentences.MatchAtIsPattern | content.js:171 | the scanner matches at p, up to e, exactly when `[^.!?]+[.!?]+(\s\|$)` matches there |
| Sentences.MatchIsShaped | content.js:171 | every match ends in terminal punctuation, or in punctuation and one space |
| Sentences.FindAllShaped | content.js:171 | every match found is sentence-shaped and, in collapsed text, has no white-space run |
| Sentences.InnerStopSkipped | content.js:171 | a stop inside a word starts no match: the scan resumes after the stop |
| Sentences.NoStopNoMatch | content.js:171-172 | text with no `.`, `!` or `?` has no match |
| Sentences.SentenceMatch | content.js:171 | a stop-free word followed by stops and a space or the end is one match |
| Sentences.RunEndDrop | content.js:171 | dropping a prefix only shifts a run |
| Sentences.RunEndAppend | content.js:171 | a run that ends inside a prefix is not affected by what follows |
| Sentences.MatchAtDrop | content.js:171 | dropping a prefix only shifts a match attempt |
| Sentences.MatchAtShift | content.js:171 | a match in a suffix does not depend on the prefix |
| Sentences.MatchAtAppend | content.js:171 | a sentence-shaped prefix matches whole |
| Sentences.FindAllShift | content.js:171 | the matches found in a suffix do not depend on the prefix |
| Sentences.FindAllDrop | content.js:171 | dropping a prefix does not change the matches found after it |
| Sentences.DropMatch | content.js:171 | across a match both scans take the same text and resume at its end |
| Sentences.DropMiss | content.js:171 | across a position with no match both scans move on by one |
| Sentences.FindAllFirst | content.js:171 | a sentence-shaped prefix is the first match, followed by the matches of the rest |
| Sentences.ClosedAheadIsPattern | content.js:175 | the lookahead scanner holds exactly when a `)` follows with no `(` or `)` before it, that is when `(?![^()]*\))` blocks the split |
| Sentences.ClosedAheadShift | content.js:175 | the lookahead in a suffix does not depend on the prefix |
| Sentences.NoCloseAhead | content.js:175 | with no `)` ahead, the lookahead allows the split |
| Sentences.PiecesFirst | content.js:175 | the current piece runs up to the first separating comma (or the end), and the next pieces start just past it: which commas split is pinned down |
| Sentences.PiecesShape | content.js:175 | one more piece than splitting commas; in collapsed text no piece has a white-space run |
| Sentences.PiecesJoin | content.js:175 | the pieces joined with commas give back the text |
| Sentences.PiecesShift | content.js:175 | the pieces of a suffix do not depend on the prefix |
| Sentences.PiecesSkip | content.js:175 | characters that are not splitting commas do not start a piece |
| Sentences.CommaSplitJoins | content.js:175 | the comma split joined with commas gives back the text |
| Sentences.CommaSplitNone | content.js:175 | comma-free text is one piece |
| Sentences.CommaSplitCons | content.js:175 | a splitting comma separates the first piece from the split of the rest |
| Sentences.SentencesAreSpoken | content.js:166-176 | no sentences exactly for empty text; every sentence is normalised, non-empty and ends in `.`, `!` or `?` |
| Sentences.SegmentIsSpoken | content.js:168-175 | non-empty text gives at least one sentence, each of them speakable |
| Sentences.TrimmedMatches | content.js:172 | every trimmed match is a speakable sentence |
| Sentences.TrimmedMatch | content.js:172 | one trimmed match is speakable |
| Sentences.MatchTrimEnd | content.js:172 | trimming a match leaves a non-empty prefix ending in punctuation |
| Sentences.ClosedPieces | content.js:175 | every trimmed comma piece with `.` appended is speakable |
| Sentences.ClosedPiece | content.js:175 | one trimmed piece with `.` appended is speakable |
| Sentences.ClosedSentence | content.js:175 | normalised text with `.` appended is speakable |
| Sentences.CollapsedAppend | content.js:175 | appending a visible character keeps text free of white-space runs |
| Sentences.FallbackCount | content.js:174-175 | with at most one match there is one sentence more than splitting commas, and the pieces rejoin to the text |
| Sentences.BlankTextIsOneStop | content.js:167-175 | non-empty white-space-only text gives the single sentence "." |
| Sentences.NothingToSay | content.js:167-175 | non-empty text that normalises to "" gives the single sentence "." |
| Sentences.WholeMatch | content.js:171 | text that matches whole is its only match |
| Sentences.LoneSentenceIsClosedTwice | content.js:171-175 | a single comma-free sentence gets a second `.` appended |
| AltText.SourceOf | content.js:350 | the model of `el.getAttribute("src") || el.src`; used by AltTextShape |
| AltText.GenerateAltText | content.js:349-354 | the model of `generateAltText`; its contract is stated by AltTextShape and HyphenatedName |
| AltText.SegmentStart | content.js:351 | the position after the last `/` before i, or 0 |
| AltText.LastSegment | content.js:351 | `split("/").pop()`: the suffix after the last `/`, or the whole string, and it has no `/` |
| AltText.SpaceOut | content.js:352 | each `-` and `_` becomes a space, and nothing else changes |
| AltText.BeforeDot | content.js:352 | `split(".")[0]`: the prefix before the first `.`, or the whole string |
| AltText.NoFilenameIff | content.js:351-353 | the file name is empty exactly when the source is empty or ends in `/` |
| AltText.AltTextShape | content.js:349-354 | the fixed phrase exactly when there is no file name; otherwise "Image: " followed by a clean name, which is the file name cut at its first `.` with `-` and `_` read as spaces |
| AltText.SpaceOutAppend | content.js:352 | the replacement splits over a concatenation |
| AltText.BeforeDotAppend | content.js:352 | a dot-free prefix is kept whole |
| AltText.LastSegmentOfPath | content.js:351 | the file name of `dir/f` is f |
| AltText.SpaceOutKeeps | content.js:352 | text with no `-` or `_` is unchanged |
| AltText.CleanHyphenated | content.js:352 | `w1-w2.ext` is cleaned to `w1 w2` |
| AltText.HyphenatedName | content.js:349-354 | a source ending in `/w1-w2.ext` is described as "Image: w1 w2" |
| Controller.Consistent | content.js:47-67 | the invariant: one marker exactly when there is a focus, and it is on the focus; the cached sentences are clean; nothing empty was spoken; used by every Keeps lemma |
| Controller.Speak | content.js:75-87 | the model of `speak`; its contract is stated by TimerSpeaks and DisabledIsSilent |
| Controller.SpeakDebounced | content.js:89-92 | the model of `speakDebounced`; its contract is stated by DebounceKeepsLast |
| Controller.TimerFires | content.js:91 | the debounce timer firing; its contract is stated by TimerSpeaks and TimerKeepsConsistent |
| Controller.Focus | content.js:47-67 | `lastElement = el; highlight(el)`; its contract is stated by FocusKeeps |
| Controller.ToggleListener | content.js:33-41 | the Ctrl+Space listener; its contract is stated by ToggleFlips and ToggleTwiceRestores |
| Controller.ArrowDown | content.js:181-193 | the ArrowDown branch; its contract is stated by ArrowDownStep and DownAndSpeak |
| Controller.ArrowUp | content.js:195-208 | the ArrowUp branch; its contract is stated by ArrowUpStep and UpFromOneAndSpeak |
| Controller.NavigateListener | content.js:215-297 | the P, H, L and B listeners; its contract is stated by NavigateOutcome and NavigateIgnores |
| Controller.LandmarkListener | content.js:303-320 | the D listener; its contract is stated by LandmarkOutcome |
| Controller.MainListener | content.js:326-343 | the M listener; its contract is stated by SkipToMainOutcome |
| Controller.ImageListener | content.js:356-379 | the G listener; its contract is stated by ImageOutcome |
| Controller.UsableAlt | content.js:369 | the alt check: present and at least three UTF-16 code units after trimming; used by ShowImageOutcome |
| Controller.ShowImage | content.js:367-377 | the G listener once an image is found; its contract is stated by ShowImageOutcome |
| Controller.KeyDown | content.js:33-379 | every keydown listener in registration order; its contract is stated by KeyDownKeepsConsistent and LettersRunOne |
| Controller.ClickListener | content.js:148-157 | the click listener; its contract is stated by ClickOutcome |
| Controller.Intercepts | content.js:178-379 | which keys some listener calls `preventDefault` for; used by OnKeyDown |
| Controller.InitialConsistent | content.js:31-164 | the state at load satisfies the invariant: no focus, no marker, no sentences, nothing spoken |
| Controller.ArrowKeeps | content.js:178-209 | the arrow listener keeps the mode, the setting and the invariant, and is silent while speech is disabled |
| Controller.NavigateKeeps | content.js:215-297 | the same for P, H, L and B |
| Controller.LandmarkKeeps | content.js:303-320 | the same for D |
| Controller.MainKeeps | content.js:326-343 | the same for M |
| Controller.ImageKeeps | content.js:356-379 | the same for G |
| Controller.ShowImageKeeps | content.js:367-377 | the same for showing an image found by G |
| Controller.FocusKeeps | content.js:47-67 | selecting an element and queueing a text keeps the invariant: one marker, on the new focus |
| Controller.LettersKeep | content.js:215-379 | the letter listeners run in turn keep what each keeps |
| Controller.NavigateIgnores | content.js:216-217 | in Typing mode, or for another key, P/H/L/B change nothing |
| Controller.OthersIgnore | content.js:304-358 | in Typing mode, or for another key, D, M and G change nothing |
| Controller.LettersIgnore | content.js:215-379 | a key that is no command letter passes every letter listener untouched |
| Controller.ToggleKeepsConsistent | content.js:33-41 | the toggle keeps the invariant |
| Controller.KeyDownKeepsConsistent | content.js:33-379 | every keydown event keeps the invariant |
| Controller.ClickKeepsConsistent | content.js:148-157 | every click keeps the invariant |
| Controller.TimerKeepsConsistent | content.js:89-92 | the debounce timer keeps the invariant |
| Controller.ToggleFlips | content.js:33-41 | Ctrl+Space flips the mode whatever it was, announces the new mode, and changes nothing else |
| Controller.ToggleTwiceRestores | content.js:33-41 | toggling twice restores the state, after announcing both modes in order |
| Controller.TypingModeIsInert | content.js:148-379 | in Typing mode no key but the toggle and no click changes anything, and nothing is intercepted |
| Controller.OnlyToggleChangesMode | content.js:33-41 | the keydown mode is the toggle's mode; clicks and the timer never change it |
| Controller.LetterRunsOneListener | content.js:215-297 | in Browse mode a P/H/L/B key runs its own listener and no other |
| Controller.KeyDownIsLetters | content.js:33-209 | a plain key other than the arrows passes the toggle and arrow listeners untouched |
| Controller.LettersRunOne | content.js:215-379 | in Browse mode the letter of P, H, L or B runs its own listener; every other letter listener leaves the result untouched |
| Controller.NavigateOutcome | content.js:215-297 | null exactly when nothing eligible; then nothing changes; otherwise the focus and the one marker move to a valid match, the cursor goes to 0, the label waits on the timer, and nothing else changes |
| Controller.LandmarkOutcome | content.js:303-320 | with no landmark "No more landmarks" is spoken and the focus stays; otherwise the focus and marker move to an eligible landmark of the page, its label is queued, and nothing else changes (the cursor is kept) |
| Controller.SkipToMainOutcome | content.js:326-343 | with no main element "Main content not found" is spoken; otherwise the focus moves to the first `main` element, else the first role="main" element, unvalidated, "Main content" is spoken, and nothing else changes (the cursor and the queue are kept) |
| Controller.ImageOutcome | content.js:356-367 | with no valid image "No images found" is spoken and the focus stays; otherwise the image is a valid `img` and is shown |
| Controller.ShowImageOutcome | content.js:367-377 | the focus and marker move to the image; an alt with at least three UTF-16 code units after trimming is queued; otherwise "Generating image description" is spoken and the made-up description is queued; nothing else changes (the cursor is kept) |
| Controller.ClickOutcome | content.js:148-157 | a valid nearest p/heading/link/button of the target becomes the focus, with its label queued and nothing else changed (the cursor is kept); otherwise nothing changes |
| Controller.LongKeyIsNoLetter | content.js:218 | a key name longer than one character is no command letter in any case |
| Controller.ArrowIsNoLetter | content.js:218 | the arrow keys' names are no command letter |
| Controller.ArrowsNeedFocus | content.js:184-198 | with no focus element the arrow keys change nothing |
| Controller.ArrowKeysRoute | content.js:178-209 | in Browse mode the arrow keys run only the sentence listener |
| Controller.ArrowDownStep | content.js:181-193 | below the end, the sentence at the cursor is queued and the cursor moves on by one; at or past the end only the sentences are recomputed |
| Controller.ForwardStep | content.js:187-192 | the same over any list of sentences |
| Controller.ArrowUpStep | content.js:195-208 | the cursor becomes `i > 1 ? i-1 : 1` and the sentence at `i > 1 ? i-2 : 0` is queued, or "" past the end |
| Controller.BackStep | content.js:200-207 | the same over any list of sentences |
| Controller.TimerSpeaks | content.js:75-91 | when enabled, the timer speaks the queued non-empty text and clears the queue |
| Controller.DownAndSpeak | content.js:181-193 | ArrowDown, then the timer, speaks sentence i and leaves the cursor at i+1 |
| Controller.UpFromOneAndSpeak | content.js:195-208 | from cursor 1, ArrowUp and the timer speak the first sentence again |
| Controller.DownAndSpeakFields | content.js:181-193 | the fields after ArrowDown and the timer |
| Controller.UpFromOneFields | content.js:195-208 | the fields after ArrowUp from 1 and the timer |
| Controller.SentenceWalk | content.js:178-209 | down, up, down from the start speaks sentences 0, 0, 1 and leaves the cursor at 2 |
| Controller.DebounceKeepsLast | content.js:89-92 | of three debounced texts only the last is spoken |
| Controller.DisabledIsSilent | content.js:75-77 | with speech disabled no key, click or timer speaks |
| Script.Reader.constructor | content.js:16-31 | the script starts in Browse mode with no focus, no marker and nothing said, and satisfies the invariant |
| Script.Reader.Speak | content.js:75-87 | appends the text to what was spoken only when enabled and the text is non-empty |
| Script.Reader.SpeakDebounced | content.js:89-92 | the new text replaces whatever was waiting |
| Script.Reader.TimerFires | content.js:91 | speaks and clears the waiting text, keeping the invariant |
| Script.Reader.Highlight | content.js:47-67 | removes every marker, then leaves exactly one, over the element |
| Script.Reader.OnToggle | content.js:33-41 | moves to the toggle transition's state |
| Script.Reader.OnArrow | content.js:178-209 | moves to the arrow transition's state, keeps the mode, and intercepts exactly the arrow keys in Browse mode |
| Script.Reader.ReadNext | content.js:181-193 | moves to the ArrowDown transition's state |
| Script.Reader.StepForward | content.js:187-192 | moves to the ArrowDown step over the given sentences |
| Script.Reader.ReadPrevious | content.js:195-208 | moves to the ArrowUp transition's state |
| Script.Reader.StepBack | content.js:200-207 | moves to the ArrowUp step over the given sentences |
| Script.Reader.OnNavigate | content.js:215-297 | moves to the P/H/L/B transition's state, keeps the mode, and intercepts exactly its letter in Browse mode |
| Script.Reader.OnLandmark | content.js:303-320 | the same for D |
| Script.Reader.OnSkipToMain | content.js:326-343 | the same for M |
| Script.Reader.OnImage | content.js:356-379 | moves to the G transition's state and intercepts exactly `g` in Browse mode |
| Script.Reader.ImageFound | content.js:361-377 | moves to the state after the image search |
| Script.Reader.ShowImage | content.js:367-377 | moves to the state after showing the image |
| Script.Reader.Select | content.js:154-156 | the element becomes the focus with one marker on it, and the text waits on the timer |
| Script.Reader.OnKeyDown | content.js:33-379 | all listeners run in registration order, the invariant is kept, and the event is intercepted exactly when one of them calls `preventDefault` |
| Script.Reader.OnClick | content.js:148-157 | moves to the click transition's state, keeping the invariant |
| Cases.EmptyTextHasNoSentences | content.js:167 | "" gives no sentences |
| Cases.TwoSentences | content.js:171-172 | for phrases u and v (spaces and commas allowed, no stops) and a stop c, "u. v" + c gives ["u.", "v" + c] |
| Cases.HelloWorld | content.js:165-176 | "Hello world. How are you?" gives ["Hello world.", "How are you?"] |
| Cases.WordIsPhrase | content.js:171 | a word is a phrase |
| Cases.PhraseWord | content.js:171 | a phrase, a space and a word make a phrase |
| Cases.PhraseThen | content.js:108 | a phrase followed by a visible mark is already normalised |
| Cases.CommaList | content.js:174-175 | "a, b, c" gives ["a.", "b.", "c."] |
| Cases.OneSentenceGetsSecondStop | content.js:171-175 | "w." gives ["w.."] |
| Cases.AbbreviationLosesWord | content.js:171-172 | "x.y. z." gives ["y.", "z."]: the word before the inner stop is lost |
| Cases.CommaInsideParentheses | content.js:175 | a comma inside parentheses does not split |
| Cases.TwoSentencesScan | content.js:171 | the matches of "u. v" + c are "u. " and "v" + c |
| Cases.CommaListNoMatch | content.js:171 | a stop-free list has no match |
| Cases.CommaListPieces | content.js:175 | a list of three splits into three pieces |
| Cases.AbbreviationScan | content.js:171 | the matches of "x.y. z." are those of "y. z." |
| Cases.StopInsideWord | content.js:171 | a stop between two words is skipped by the scan |
| Cases.GroupPieces | content.js:175 | "(u, v), w" splits only at the outer comma |
| Cases.GroupNoMatch | content.js:171 | a stop-free group has no match |

## Left out

- Loading settings from `chrome.storage` (content.js:24-26) is host I/O. `SETTINGS.enabled` is a constructor parameter.
- The speech engine is left out: `SpeechSynthesisUtterance`, `speechSynthesis.cancel`, and the rate, pitch and volume conversions. Speaking appends the text to a log. Cancelling a running utterance is not modelled.
- Real timers are left out. The debounce is one pending slot that each call overwrites, plus an explicit `TimerFires` step. No time is modelled.
- Rendering is reduced to record fields. Highlight geometry and CSS, `getBoundingClientRect`, `getComputedStyle` and `scrollIntoView` are not modelled. Size and position kind are fields of the record.
- `console.log` calls are left out.
- The wait in the G listener is run as straight-line code. Nothing else can happen while it waits.
- The page's tree structure is left out. A click receives its target followed by its ancestors.
- Script.Reader.OnClick does not model the click's default action. The same goes for Ctrl+Space's default action, which the toggle does not prevent.
- LowerAscii lower-cases ASCII letters only. JavaScript's `toLowerCase` also folds other scripts, which no key name used here needs.
- `undefined` handed to `speakDebounced` by ArrowUp past the end is modelled as "". `speak` drops both alike.
- JavaScript regular expressions in general are not modelled. Only the two patterns of `splitIntoSentences` are, as scanners.
- popup.js is not part of this model. It is form glue that writes settings to storage.
