# CheapSoundFile, verified in Dafny

A model of the format-independent core of Ringdroid's `CheapSoundFile`. This
is the base class of the "cheap" sound-file scanners, which describe a file
as a table of short frames, each with an approximate loudness (its gain).
The model covers four parts:

- **The extension registry** (`FormatRegistry`, `FileNames`).
  - The static initialiser fills a list of supported extensions and a map
    from each extension to the factory that handles it.
  - `getSupportedExtensions` returns the list.
  - `isFilenameSupported` and the lookup in `create` pick a file name's
    extension with `toLowerCase().split("\\.")` and look it up in the map.
- **`bytesToHex`** (`Hex`): writes two lowercase hexadecimal digits per byte,
  high nibble first. It is specified by a function `HexOf`, and the inverse
  `Unhex` shows that the rendering loses nothing.
- **`getMaxGain`** (`SoundFile.CheapSoundFile.GetMaxGain`): the largest gain
  of a frame range.
- **`getWords`** (`SoundFile`, `Segmentation`, `SegmentationProperties`).
  - Phase one scans a window of frames for silence runs that are long
    enough.
  - Phase two walks each gap between consecutive runs (window ends
    included). It emits the gap as a "word" once the running sum of its
    gains exceeds `minSilence * SILENCE_GAIN * 5`.
  - Both phases are methods with the source's loops. They are proved against
    declarative specifications: `SilenceList` says which runs are silences,
    and `WordsOf` says which gaps are words. Lemmas then prove what the
    result means:
    - whole pairs, in increasing order;
    - exactly the gaps that cross the threshold;
    - at most one more pair than there are silence runs;
    - the empty, all-silent and all-loud windows;
    - the 5-versus-6-frame boundary;
    - determinism.

Java's `int` is modelled explicitly (`JavaInt`):
- `int32` and `int8` are newtypes.
- `/` truncates toward zero (`Div`).
- `+` and `*` wrap modulo 2^32 (`Wrap32`) wherever the source could
  overflow and the result matters.
- `>>>` and `&` work on the sign-extended 32-bit pattern (`Unsigned32`).

The runtime exceptions of the source become preconditions:
`NullPointerException`, `ArrayIndexOutOfBoundsException`,
`ArithmeticException` for division by zero, `IllegalArgumentException`
for a negative list capacity, and `NegativeArraySizeException` when
`bytesToHex`'s buffer size `hash.length * 2` wraps to a negative `int`.

Where the code and the written description of the system disagree, the
model follows the code:

- A silence run starts at a frame with gain below 2 and goes on while the
  gain is *at most* 2, not only while it is below 2.
- A word is emitted as the whole gap `(gapStart, gapEnd)`, not as
  `[gapStart, position where the sum crossed)`.
- A gap starts at the *last silent frame* of the preceding run, not after
  it.
- `getWords` with no gain table throws `NullPointerException` rather than
  returning an empty list (`GetWords` requires `gains != null`).
- `getMaxGain` with no gain table returns 0.

## Model

Every path below is relative to the repository root. The file is always
`src/com/ringdroid/soundfile/CheapSoundFile.java`.

| member | source | states |
|---|---|---|
| FormatRegistry.ExtensionRegistry.constructor | src/com/ringdroid/soundfile/CheapSoundFile.java:56-74 | the static initialiser's nested loops leave the extension list equal to every factory's extensions in factory order, and the map equal to the result of putting each extension in that order (`Valid`) |
| FormatRegistry.AllExtensionsMembers | src/com/ringdroid/soundfile/CheapSoundFile.java:67-73 | an extension is listed exactly when some factory declares it |
| FormatRegistry.AllExtensionsConcat | src/com/ringdroid/soundfile/CheapSoundFile.java:67-73 | registering two groups of factories lists the first group's extensions, then the second's, with duplicates kept |
| FormatRegistry.PutAllEffect | src/com/ringdroid/soundfile/CheapSoundFile.java:69-72 | after putting a factory's extensions, each of them maps to that factory and every other key keeps its old value |
| FormatRegistry.ExtensionMapIsLastDeclarer | src/com/ringdroid/soundfile/CheapSoundFile.java:67-74 | the map's key set is the set of listed extensions, and each key maps to the last factory that declares it (a later `put` overrides an earlier one) |
| FormatRegistry.LastDeclarerUnique | src/com/ringdroid/soundfile/CheapSoundFile.java:71 | the factory an extension resolves to is unique |
| FormatRegistry.ExtensionRegistry.SupportedExtensions | src/com/ringdroid/soundfile/CheapSoundFile.java:117-120 | `getSupportedExtensions` returns all factories' extensions in order, and an extension is in it exactly when it is a key of the map |
| FormatRegistry.SupportedIffDeclared | src/com/ringdroid/soundfile/CheapSoundFile.java:105-111 | the split-based test "last component is a map key" holds exactly when the name has an extension and some factory declares it |
| FormatRegistry.ExtensionRegistry.IsFilenameSupported | src/com/ringdroid/soundfile/CheapSoundFile.java:105-111 | `isFilenameSupported` is true exactly when the lower-cased name has an extension (`ExtensionOf`) that some factory declares |
| FormatRegistry.BaseName | src/com/ringdroid/soundfile/CheapSoundFile.java:86-90 | `File.getName`: the longest suffix of the path that contains no `/` (the whole path, or the text after its last `/`) |
| FormatRegistry.ExtensionRegistry.Resolve | src/com/ringdroid/soundfile/CheapSoundFile.java:86-98 | the lookup in `create`: a missing file is `FileNotFound` and nothing else is; an existing file resolves to a factory exactly when its base name is supported, and then to the last factory declaring its extension |
| FileNames.Lower | src/com/ringdroid/soundfile/CheapSoundFile.java:106 | `toLowerCase` keeps the length and lower-cases each character (ASCII) |
| FileNames.Pieces | src/com/ringdroid/soundfile/CheapSoundFile.java:106 | the raw split at every dot: at least one piece, no piece contains a dot, and joining the pieces with dots gives the string back |
| FileNames.Split | src/com/ringdroid/soundfile/CheapSoundFile.java:106 | `split("\\.")`: no component contains a dot; with a dot present the last component is non-empty; joining the components with dots gives the string back except for the dots at its end |
| FileNames.JoinDropped | src/com/ringdroid/soundfile/CheapSoundFile.java:106 | dropping trailing empty components removes only dots from the end of the joined string |
| FileNames.LastComponent | src/com/ringdroid/soundfile/CheapSoundFile.java:107-110 | the extension chosen from at least two components: when there is one, the name contains a dot and the extension is non-empty and dot-free (`LastComponentIsExtension` pins it down exactly) |
| FileNames.DropTrailingEmpty | src/com/ringdroid/soundfile/CheapSoundFile.java:106 | `split` without a limit removes only trailing empty components: the result is a prefix whose last component is non-empty, and every dropped component is empty |
| FileNames.PiecesOfTrailingDots | src/com/ringdroid/soundfile/CheapSoundFile.java:106 | once trailing empty components are dropped, dots at the end of the name do not change the split |
| FileNames.PiecesShape | src/com/ringdroid/soundfile/CheapSoundFile.java:106-107 | for a name not ending in a dot, the last component is the text after the last dot, and there are at least two components exactly when there is a dot |
| FileNames.LastComponentIsExtension | src/com/ringdroid/soundfile/CheapSoundFile.java:90-95 | for every name, "the last of at least two `split` components" equals the reference extension: the text after the last dot once trailing dots are ignored, if a dot remains |
| FileNames.ExtensionIgnoresCase | src/com/ringdroid/soundfile/CheapSoundFile.java:106 | names that differ only in letter case have the same extension |
| FileNames.ExtensionIgnoresCaseExample | src/com/ringdroid/soundfile/CheapSoundFile.java:105-111 | `song.MP3` and `song.mp3` both have the extension `mp3` |
| FileNames.TrailingDotsExample | src/com/ringdroid/soundfile/CheapSoundFile.java:106-110 | `a.mp3..` has the extension `mp3` |
| FileNames.TrailingDotExample | src/com/ringdroid/soundfile/CheapSoundFile.java:106-108 | `mp3.` has no extension, so it is never supported |
| FileNames.OnlyDotsExample | src/com/ringdroid/soundfile/CheapSoundFile.java:106-108 | `...` has no extension |
| FileNames.NoDotExample | src/com/ringdroid/soundfile/CheapSoundFile.java:106-108 | `noext` has no extension |
| Hex.NibblesOfByte | src/com/ringdroid/soundfile/CheapSoundFile.java:194-195 | `(b >>> 4) & 0xf` and `b & 0xf` on the sign-extended byte are both table indices, and together they are the byte's unsigned value |
| Hex.ByteOfNibbles | src/com/ringdroid/soundfile/CheapSoundFile.java:194-195 | the two nibbles determine the signed byte |
| Hex.NibblesOfByteOf | src/com/ringdroid/soundfile/CheapSoundFile.java:194-195 | every pair of nibbles is the pair of some byte |
| Hex.ByteChars | src/com/ringdroid/soundfile/CheapSoundFile.java:188-195 | each byte gives two characters of `HEX_CHARS`, both lowercase hexadecimal digits |
| Hex.DigitValue | src/com/ringdroid/soundfile/CheapSoundFile.java:188-190 | a character has a digit value exactly when it is in `HEX_CHARS`, and the value is below 16 |
| Hex.HexLayout | src/com/ringdroid/soundfile/CheapSoundFile.java:191-197 | the rendering has length `2 * |bytes|` and only lowercase hexadecimal digits; character `2i` is the high nibble of byte `i` and character `2i+1` its low nibble |
| Hex.UnhexHex | src/com/ringdroid/soundfile/CheapSoundFile.java:191-197 | decoding the rendering gives back the bytes |
| Hex.HexUnhex | src/com/ringdroid/soundfile/CheapSoundFile.java:191-197 | every even-length string of lowercase hexadecimal digits decodes, and is the rendering of what it decodes to |
| Hex.BytesToHex | src/com/ringdroid/soundfile/CheapSoundFile.java:191-198 | for an input whose doubled length fits an `int`, the loop that fills `buf` through `x` returns `HexOf(hash)`, of length `2 * hash.length`, which decodes back to `hash` |
| JavaInt.Div | src/com/ringdroid/soundfile/CheapSoundFile.java:255-257 | Java's `/`: the quotient's magnitude is the quotient of the magnitudes, and its sign is the product of the signs (truncation toward zero) |
| JavaInt.Wrap32 | src/com/ringdroid/soundfile/CheapSoundFile.java:260 | Java's `int` result: equal to the exact value when that fits, and congruent to it modulo 2^32 always |
| SoundFile.WholeFrames | src/com/ringdroid/soundfile/CheapSoundFile.java:255-256 | without overflow, the two truncating divisions give `100 * sampleRate / (1000 * samplesPerFrame)` |
| SoundFile.CheapSoundFile.MinSilence | src/com/ringdroid/soundfile/CheapSoundFile.java:255-256 | `minSilence` is the whole number of frames in 100 ms when nothing overflows, and is always small enough that `minSilence * SILENCE_GAIN * 5` fits an `int` |
| SoundFile.CheapSoundFile.GetMaxGain | src/com/ringdroid/soundfile/CheapSoundFile.java:239-249 | 0 without gains; `Integer.MIN_VALUE` when the wrapped end is not after the start; otherwise a gain of the range that is at least every gain in it |
| SoundFile.CheapSoundFile.FindSilences | src/com/ringdroid/soundfile/CheapSoundFile.java:258-282 | the do-while scan produces `SilenceList`: the two sentinel pairs around exactly the silence runs of the window, in increasing order |
| SoundFile.CheapSoundFile.FindWords | src/com/ringdroid/soundfile/CheapSoundFile.java:283-300 | the gap walk produces `WordsOf`: for each gap in order, the whole gap when some running sum from its start exceeds the threshold |
| SoundFile.CheapSoundFile.GetWords | src/com/ringdroid/soundfile/CheapSoundFile.java:253-301 | the words are `WordsOf` the window's silence list with threshold `minSilence * 10`, and are empty when `numFrames <= 0` |
| Segmentation.ActiveStretch | src/com/ringdroid/soundfile/CheapSoundFile.java:265-270 | a stretch of frames with gain at most 2 that begins below 2 is covered by the run the scan follows |
| Segmentation.SilencesOfRun | src/com/ringdroid/soundfile/CheapSoundFile.java:265-275 | the only silence that can begin inside the run `[i, j)` found at `i` is `[i, j - 1]`, and only when `j - i > minSilence` |
| Segmentation.RunEnd | src/com/ringdroid/soundfile/CheapSoundFile.java:266-270 | a silence that starts where the inner loop started ends where it stopped |
| Segmentation.ScanRunRecorded | src/com/ringdroid/soundfile/CheapSoundFile.java:265-275 | a run longer than `minSilence` is recorded, and the scan invariant holds at `j` |
| Segmentation.ScanRunDropped | src/com/ringdroid/soundfile/CheapSoundFile.java:265-275 | a run of at most `minSilence` frames is skipped, and the scan invariant holds at `j` |
| Segmentation.ScanSkip | src/com/ringdroid/soundfile/CheapSoundFile.java:276-278 | a frame of gain 2 or more starts no silence |
| Segmentation.ScanDone | src/com/ringdroid/soundfile/CheapSoundFile.java:280-282 | once the scan passes `endFrame`, the end sentinel pair completes the silence list |
| Segmentation.SilenceListGaps | src/com/ringdroid/soundfile/CheapSoundFile.java:287-291 | every gap lies within the window, so the reads of `silences.get(k)` and `gains[l]` stay in bounds |
| SegmentationProperties.WordsArePairs | src/com/ringdroid/soundfile/CheapSoundFile.java:287-299 | the word list has even length and at most one pair per gap |
| SegmentationProperties.WordsStep | src/com/ringdroid/soundfile/CheapSoundFile.java:287-298 | one more gap keeps the earlier pairs and appends that gap exactly when it crosses the threshold |
| SegmentationProperties.WordsAreCrossingGaps | src/com/ringdroid/soundfile/CheapSoundFile.java:288-297 | every pair is a whole gap whose running sum exceeds the threshold |
| SegmentationProperties.CrossingGapsAreWords | src/com/ringdroid/soundfile/CheapSoundFile.java:288-297 | every gap whose running sum exceeds the threshold is a pair |
| SegmentationProperties.WordsAreOrdered | src/com/ringdroid/soundfile/CheapSoundFile.java:287-299 | pairs are non-empty ranges in nondecreasing order |
| SegmentationProperties.SilenceListGapsOrdered | src/com/ringdroid/soundfile/CheapSoundFile.java:261-282 | gaps between the recorded runs follow one another |
| SegmentationProperties.WordsOfSilenceList | src/com/ringdroid/soundfile/CheapSoundFile.java:253-301 | the words of a window: even length, at most runs + 1 pairs, each a crossing gap inside the window with start < end, in nondecreasing order, and every crossing gap present |
| SegmentationProperties.SilenceListUnique | src/com/ringdroid/soundfile/CheapSoundFile.java:258-282 | the silence list of a window is unique |
| SegmentationProperties.WordsDeterministic | src/com/ringdroid/soundfile/CheapSoundFile.java:253-301 | two calls on the same window give the same words (idempotence) |
| SegmentationProperties.EmptyWindow | src/com/ringdroid/soundfile/CheapSoundFile.java:260-300 | with `endFrame <= startFrame` no run is recorded and no word is emitted |
| SegmentationProperties.AllSilentWindow | src/com/ringdroid/soundfile/CheapSoundFile.java:263-300 | a window of gains all below 2 and longer than `minSilence` is exactly one silence run `[startFrame, endFrame-1]` and yields no word |
| SegmentationProperties.AllLoudWindow | src/com/ringdroid/soundfile/CheapSoundFile.java:263-300 | a window with no gain below 2 has no silence run, and its one word is the whole window when its running sum crosses the threshold |
| SegmentationProperties.IsolatedRun | src/com/ringdroid/soundfile/CheapSoundFile.java:271 | a low run bounded by loud frames or the window's ends is a silence exactly when it is longer than `minSilence` |
| SegmentationProperties.BoundaryExample | src/com/ringdroid/soundfile/CheapSoundFile.java:255-271 | at 8000 Hz and 160 samples per frame, `minSilence` is 5; a 5-frame run `[2,6]` is not a silence and a 6-frame run `[2,7]` is |

## Left out

- `computeMd5OfFirst10Frames` (lines 200-229): file reads and the MD5 digest are I/O and a foreign library. Only the hexadecimal rendering of its result (`bytesToHex`) is modelled.
- The rest of `create` (lines 86-89, 99-102): `File.exists` is a parameter of `Resolve`. `factory.create()`, `setProgressListener` and `ReadFile` are left out: they are file-system access and the format parsers (`CheapAAC`, `CheapAMR`, `CheapMP3`, `CheapWAV`), which are not part of this model. The factories are an input list of (name, extensions), since their extension lists are not part of this model.
- `BaseName` takes the text after the last `/`. `File`'s path normalisation and other separators are not modelled.
- `ProgressListener` and `setProgressListener` (lines 42-49, 134-136): callback plumbing.
- `WriteFile` (lines 231-233): an empty I/O stub.
- `getAverageGain` (lines 235-237) returns 0, and `getBeat` (lines 303-316) returns 0 with its peak logic commented out. Neither computes anything, so neither is modelled.
- The base-class accessors (lines 138-186) are stubs that back-ends override. Gains, sample rate and samples per frame are given to the `CheapSoundFile` constructor instead.
- `getWords`'s variable `find` is always 0, so its test is left out. The initial capacities of the two `ArrayList`s only matter through the exception a negative capacity throws, which is a precondition.
- FileNames.Lower: `toLowerCase` is modelled on ASCII letters only; locale-dependent case mapping is not modelled.
- SoundFile.CheapSoundFile.GetWords: requires that no running gain sum of the window overflows an `int` (`SumsFit`), and does not model the wrap-around of `sum += gains[l]`.
- SoundFile.CheapSoundFile.GetWords: requires `minSilence > 0`. Zero is a division by zero in the source. A negative value, which only a negative sample rate or frame size gives, is not modelled.
- SoundFile.CheapSoundFile.GetWords: the silence list is a ghost result. The source builds it as a local `ArrayList` and does not return it.
