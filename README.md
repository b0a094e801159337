# RTP resolution and picture-sprite drawing, modelled in Dafny

This project models two pieces of EasyRPG Player (as shipped in ynoengine).

**Runtime Package (RTP) resolution** (`rtp.dfy`, module `Rtp`).
- `RtpType` is the closed set of ten asset distributions. Four are RPG Maker 2000 releases and six are RPG Maker 2003 releases.
- `RtpHitInfo` is the per-variant detection score.
- `Detect`, `LookupAnyToRtp` and `LookupRtpToRtp` are the three operations of the interface.

The name tables and probe lists are compiled into an implementation file that is not part of this model. So they appear as parameters:
- a `Table` maps each asset category to its rows; a row maps some variants to their name for one logical asset;
- a `Registry` gives each variant its display name and its probe list;
- a directory tree becomes a predicate `present(category, name)`.

Names are compared up to ASCII case. `WellFormed(table)` is the authoring-data invariant: every stored name is non-empty, and within one category a name (up to case) sits in at most one row for a given variant. Only the lemmas that need it require it.

**Picture sprite drawing** (`sprite_picture.dfy`, module `SpritePictures`). This covers the integer decision logic of `Sprite_Picture::Draw`. The class `SpritePicture` holds the sprite settings `Draw` decides (source rectangle, Z, Ox, Oy, bush depth) and the cached `lastSpritesheetFrame`. Its `Draw` method updates them step by step, as the source does. It is proved equal to the pure function `DrawStep`, and the lemmas state what `DrawStep` promises. C++ `/` and `%` truncate toward zero; `CDiv` and `CMod` model them.

`wrappers.dfy` holds the `Option` datatype that both modules use.

## Model

| member | source | states |
|---|---|---|
| Rtp.RtpType.Version | src/rtp.h:30-41 | every variant belongs to generation 2000 or 2003; which one is read off its `RPG2000_`/`RPG2003_` name, and `GenerationsSplit` states which variants those are |
| Rtp.AllTypesEnumerates | src/rtp.h:30-41 | the declaration lists exactly ten distinct variants, each at its dense ordinal, with every variant present and every variant of generation 2000 or 2003 |
| Rtp.GenerationsSplit | src/rtp.h:30-41 | the four `RPG2000_*` variants are exactly those of generation 2000, and the six `RPG2003_*` ones exactly those of 2003 |
| Rtp.Candidates | src/rtp.h:56 | a variant is a candidate exactly when the version is 0 or equals the variant's generation; candidates come in declaration order without repeats |
| Rtp.CandidatesCount | src/rtp.h:56 | version 0 admits 10 variants, 2000 admits 4, 2003 admits 6, and any other version admits none |
| Rtp.SelectInOrder | src/rtp.h:66-69 | selecting from a list in declaration order keeps declaration order, so filtered results never repeat a variant |
| Rtp.Select | src/rtp.h:66-69 | the filter keeps exactly the members that pass, is no longer than its input, and is empty when nothing passes |
| Rtp.SameNameMeans | src/rtp.h:61-69 | two names match up to case exactly when they have equal length and agree letter by letter after ASCII folding |
| Rtp.FindRow | src/rtp.h:71-81 | returns the first row holding the name under the variant, or None exactly when no row holds it |
| Rtp.FindRowUnique | src/rtp.h:71-81 | in a well-formed table, any row holding the name under the variant is the row found |
| Rtp.LookupRtpToRtp | src/rtp.h:71-81 | the empty string when no row holds the name under the source variant; a non-empty result is the target slot of a row holding the name |
| Rtp.LookupRtpToRtpReadsRow | src/rtp.h:71-81 | in a well-formed table, the result is the target slot of the one row holding the name, or empty when that slot is absent |
| Rtp.LookupRtpToRtpNoTarget | src/rtp.h:78 | a recognised name whose row has no entry for the target translates to the empty string |
| Rtp.LookupRtpToRtpRoundTrip | src/rtp.h:71-81 | for a row with entries A and B: the A name translates to the B name, and the B name translates back to the A name |
| Rtp.LookupRtpToRtpThereAndBack | src/rtp.h:71-81 | when A to B gives a name, translating that name from B back to A gives a non-empty name equal to the original up to case |
| Rtp.LookupRtpToRtpSameType | src/rtp.h:71-81 | translating a known name to its own variant gives a non-empty name equal to it up to case |
| Rtp.LookupAnyToRtp | src/rtp.h:61-69 | a variant is returned exactly when it passes the version filter and some row of the category holds the name under it; no variant of the other generation, no repeats, declaration order |
| Rtp.LookupAnyToRtpUnknown | src/rtp.h:61-69 | a name that no row holds yields the empty list |
| Rtp.LookupAnyToRtpAgrees | src/rtp.h:61-81 | in a well-formed table, a variant is listed by the reverse lookup exactly when it passes the filter and the name translates to that same variant non-empty |
| Rtp.Score | src/rtp.h:43-50 | the record for one variant names that variant, carries its generation and display name, has `max` equal to its probe count and `0 <= hits <= max` |
| Rtp.CountHits | src/rtp.h:43-50 | the hit count never exceeds the number of probes tried |
| Rtp.CountHitsAll | src/rtp.h:43-50 | the hit count equals the number of probes exactly when the tree holds every probe |
| Rtp.CountHitsNone | src/rtp.h:43-50 | the hit count is zero exactly when the tree holds no probe |
| Rtp.Detect | src/rtp.h:52-59 | the entries are the variants the version admits (`Candidates`), in that order; each entry's version is its variant's generation, `max` is the probe count and `hits` counts the probes the tree holds, so `0 <= hits <= max` |
| Rtp.DetectCoverage | src/rtp.h:52-59 | there is an entry for a variant exactly when the version admits it, and entries come once each in declaration order |
| Rtp.DetectCount | src/rtp.h:52-59 | version 0 gives ten entries, 2000 gives four and 2003 gives six; with a version given, every entry has that version |
| Rtp.DetectFullAndEmptyScores | src/rtp.h:43-59 | an entry has `hits == max` exactly when the tree holds all its variant's probes, and `hits == 0` exactly when it holds none |
| SpritePictures.CDiv | src/sprite_picture.cpp:60-63 | C++ `/` truncating toward zero; carries no contract of its own: `CModSpec` and `CDivNonNegative` state its properties |
| SpritePictures.CMod | src/sprite_picture.cpp:62-63 | C++ `%`; carries no contract of its own: `CModSpec` states its properties |
| SpritePictures.CModSpec | src/sprite_picture.cpp:60-63 | C++ division and remainder: quotient times divisor plus remainder rebuilds the dividend; the remainder is smaller than the divisor in magnitude and is zero or has the dividend's sign |
| SpritePictures.CDivNonNegative | src/sprite_picture.cpp:60-63 | on non-negative operands, C++ division and remainder agree with Euclidean division |
| SpritePictures.SheetRect | src/sprite_picture.cpp:60-65 | the spritesheet cell computation; carries no contract of its own: `SheetRectEuclidean` and `SheetRectInBitmap` state its properties |
| SpritePictures.SheetRectEuclidean | src/sprite_picture.cpp:60-63 | on a well-formed sheet the cell is computed with Euclidean `/` and `%`, because every operand is non-negative |
| SpritePictures.SheetRectInBitmap | src/sprite_picture.cpp:60-65 | for positive columns and rows, non-negative bitmap size and frame: the cell is `W/cols` by `H/rows`, sits at `w*(frame%cols)`, `h*((frame/cols)%rows)` and lies inside the bitmap |
| SpritePictures.CellFits | src/sprite_picture.cpp:62-63 | cell `k` of `n` equal cells cut from a length lies within that length |
| SpritePictures.DrawStep | src/sprite_picture.cpp:37-116 | the state after one draw; carries no contract of its own: the `DrawStep*` lemmas state its properties and `SpritePicture.Draw`'s ensures ties the method to it |
| SpritePictures.DrawStepNoBitmap | src/sprite_picture.cpp:43-45 | with no bitmap or an empty picture name, drawing changes no sprite state and not the cache |
| SpritePictures.DrawStepOffScene | src/sprite_picture.cpp:47-51 | a picture not on the battle during a battle, or not on the map otherwise, changes nothing |
| SpritePictures.DrawStepSpritesheet | src/sprite_picture.cpp:54-66 | the source rectangle and cache change only on a shown 2k3E sheet with more than one frame and a new frame; then the cache holds the frame and the rectangle is that frame's cell; otherwise both stay |
| SpritePictures.DrawStepCachesFrame | src/sprite_picture.cpp:54-58 | after drawing a shown 2k3E sheet with more than one frame, the cache holds the frame drawn |
| SpritePictures.DrawStepZ | src/sprite_picture.cpp:77-91 | on major-updated engines Z becomes the battle or map layer priority plus `z_mask` (`1 << 16`, line 30) plus the picture ID when that priority is positive, and is otherwise unchanged; on older engines Z is the old picture priority plus the ID |
| SpritePictures.DrawStepOriginAndBush | src/sprite_picture.cpp:95-116 | Ox and Oy are half the width and height of the source rectangle after the sheet update; the bush depth is half its height when a pre-2k3E 2k3 engine has differing bottom and top transparency, and 0 otherwise |
| SpritePictures.DrawStepIdempotent | src/sprite_picture.cpp:37-133 | drawing the same picture twice in a row leaves the sprite as one draw left it |
| SpritePictures.SpritePicture.Draw | src/sprite_picture.cpp:37-116 | the new state equals `DrawStep` of the old state and the inputs; with an early exit the object is unchanged |
| SpritePictures.SpritePicture.constructor | src/sprite_picture.cpp:32-35 | records the picture ID |

## Left out

- The contents of the RTP name tables and the probe lists. They live in an implementation file that is not part of this model, so they are parameters (`Table`, `Registry`).
- How probes are drawn from the tables. `Detect` scores each variant against its `Registry` probe list.
- Any "is this RTP installed" threshold on hits/max. The interface leaves that to the caller.
- The directory tree and the `tree` field of `RtpHitInfo` (src/rtp.h:24, 49). These are file-system I/O; the tree is reduced to a predicate `present(category, name)`.
- Case folding beyond ASCII A-Z. The folding routine is not part of this model.
- Rtp.LookupRtpToRtpSameType: translating to the same variant returns the spelling stored in the table, which equals the argument up to case but not necessarily verbatim. An identity translation would be expected to return the argument verbatim; the header only promises a translated name (src/rtp.h:78). The implementation that would settle this is not part of this model.
- A version filter other than 0, 2000 or 2003 selects no variant. For `Detect` the header documents 0, 2000 and 2003 (src/rtp.h:56). For `LookupAnyToRtp` it documents only 2000 and 2003 (src/rtp.h:66); reading 0 there as "every generation" is this model's choice, by analogy with `Detect` (src/rtp.h:56).
- The engine's global state and constants that `Draw` reads, and the priorities of the picture's layers: the picture store, the battle flag, the engine-version queries, `Priority_PictureOld`, and `Drawable::GetPriorityForBattleLayer`/`GetPriorityForMapLayer` applied to the picture's `battle_layer`/`map_layer` (src/sprite_picture.cpp:81, 83). They appear as `Draw`'s parameters (`pic`, `Scene`, `Engine`, `pictureOldPriority`); the two layer priorities are fields of `Picture`. `NumSpriteSheetFrames()` is taken as the picture's `spritesheetFrames` field.
- The floating-point rendering settings of `Draw`: position and shake offsets, zoom, angle, waver, opacity, tone, screen tone blending and flash (src/sprite_picture.cpp:68-76, 92-93, 99-101, 108-110, 118-130).
- The final blit `Sprite::Draw(dst)` and the `Bitmap` itself (src/sprite_picture.cpp:132). The bitmap is reduced to its size, or None when there is none.
- `GetHeight()` in the bush-depth rule is taken to be the source rectangle's height; `Sprite` is not part of this model.
- Transparency values are modelled as `real` and only compared for equality. IEEE NaN is not modelled.
- `Draw` is not tied to the sprite's picture ID. The source draws the picture that `GetPicture(pic_id)` returns (src/sprite_picture.cpp:38); here the caller passes that picture in, and nothing requires its `id` to equal `picId`.
- The constructor's `Drawable::Flags flags` argument (src/sprite_picture.cpp:32). It is passed on to the `Sprite` base class, which is not part of this model.
- The initial values of the sprite's fields and of `last_spritesheet_frame`. They are set in headers that are not part of this model, so the constructor states only the picture ID.
- SpritePictures.SpritePicture.Draw: does not model 32-bit overflow of `priority + z_mask + ID` or of the source-rectangle products. `int` is unbounded here.
- SpritePictures.SpritePicture.Draw: requires non-zero column and row counts when the spritesheet rectangle is recomputed. Division by zero there is undefined behaviour in C++.
- Concurrency: there is none in the modelled code.
