# Structured-output protocol of the Pleias RAG chat back end

This project models, in Dafny, the text protocol the Pleias retrieval-augmented chat back end speaks
with its language model, and proves properties of that model:

- **Prompt building.** `GenerationEngine.format_prompt` (the one-shot prompt) and the prompt of the
  streaming bot `pleiasBot.predict_stream` are modelled, together with the search glue that turns
  full-text search rows into numbered sources (`PleiasBot.search`). The streaming bot's search also
  de-duplicates rows by hash and renders document blocks and an html listing.
- **Generation loops.** The one-shot loop, the streaming loop (with its `_last_raw` field), and the
  stop loop of `predict_stream`. The model is abstract: a sequence of detokenized pieces.
- **Response processing.**
  - `extract_sections` cuts the marked sections out of the generated text.
  - `extract_citations` rewrites `<ref name="N">…</ref>` tags, where the digits N may carry an optional `<|source_id|>` prefix, into `[k]` and builds the citation list.
  - `generate`, `predict` and `stream_predict` wire these together.
- **Display logic.**
  - `render_with_tooltips` turns reference tags into tooltip spans.
  - The packet loop of `send_message` keeps a raw buffer and reveals the answer once `<|answer_start|>` appears.
  - `prepare_for_format` splits a generation into analysis and answer.
  - The numbering loop of `display_format_references` numbers cited hashes by first appearance and skips hashes absent from the search results.

Modules, one per component:

- `Wrappers`: `Option`.
- `Text`: the Python string operations used, as functions with their specification lemmas. These are
  `find`, `rfind`, `split`, `count`, `replace`, `strip`, slicing, `join`, decimal conversion, and the
  leftmost `re.search`-style scan `FindFirst`.
- `PromptFormat`, `SectionExtract`, `CitationExtract`, `Generation`: src/generation.py.
- `Inference`: src/inference.py.
- `MainStream`: src/main_stream.py.
- `MainPrototype`: src/main.py.
- `InferenceStream`: src/inference_stream.py.

Classes:

- `GenerationEngine` is a class because `generate_stream` updates its `lastRaw` field in place.
- `PleiasBot`, in `Inference` and in `InferenceStream`, is a class because it holds the engine and its
  settings (search limit, token cap) as constant fields; it changes no field of its own.

Loops are methods proved against specification functions. The properties of those functions are proved as lemmas.

Regular expressions are modelled as explicit matcher functions, for example `TagAt`, `TooltipAt` and `RefAt`. Each returns the match at the front of a text, and a leftmost scan runs over it. The greedy and lazy quantifiers of each pattern are resolved in the comments of its matcher.

## Model

| member | source | states |
|---|---|---|
| PromptFormat.FormatPrompt | src/generation.py:88-101 | the prompt is the query line, then one block per source numbered by its 1-based position with its text ("" when missing), then the language-start line |
| PromptFormat.PromptRoundTrip | src/generation.py:88-98 | reading the prompt back yields the query and every source text numbered 1, 2, ... in list order, whenever the query holds no `<\|query_end\|>` and no text holds `<\|source_end\|>`: sources are neither dropped nor reordered and any existing id is ignored |
| SectionExtract.SpanFound | src/generation.py:210-221 | a section pattern's span starts right after the first start marker and ends at the nearest end marker after it |
| SectionExtract.SpanMissing | src/generation.py:217-221 | a section is absent only when no end marker follows any start marker |
| SectionExtract.ExtractSections | src/generation.py:200-227 | the dict built by the language step, the pattern loop and the fallback is the specified one and is well formed |
| SectionExtract.SectionsWellFormed | src/generation.py:200-227 | "language" is present iff `<\|language_end\|>` occurs and holds the trimmed text before it; each other key is present iff its marker pair occurs and holds the trimmed span; "full_text" is present, alone and untrimmed, iff nothing else was found |
| SectionExtract.EmptyIffNothing | src/generation.py:222-224 | the dict is empty after the loop exactly when no marker and no marker pair occurs |
| CitationExtract.TagFacts | src/generation.py:243 | a citation match starts with `<ref name="`, fits in the text, has a non-empty digit source id and a body without newline |
| CitationExtract.TagBodyHasNoClose | src/generation.py:243 | the lazy body `(.*?)` of a citation match holds no `</ref>`: the match ends at the first closing tag after the digits |
| CitationExtract.FindTagSpec | src/generation.py:252 | the search returns the leftmost position where a tag matches, or None when none does |
| CitationExtract.MatchIsFirstOccurrence | src/generation.py:258-281 | the first occurrence of the matched text is the match itself, so `replace(full_match, ..., 1)` rewrites exactly that tag |
| CitationExtract.ReplaceStep | src/generation.py:281 | the one-shot replace splices `[n]` in at the match and strictly lowers the number of `<` characters, which bounds the loop |
| CitationExtract.LastBoundarySpec | src/generation.py:264-269 | the sentence boundary is the greatest position where one of `. `, `! `, `? `, newline occurs, and -1 when none does |
| CitationExtract.SupportedTextLength | src/generation.py:271-274 | the supported text is no longer than the text before the tag, and at most 150 characters when there is no boundary |
| CitationExtract.SupportedTextHasNoBoundary | src/generation.py:263-274 | the supported text contains none of the boundary marks |
| CitationExtract.NewlineBoundarySkipsOne | src/generation.py:274 | after a newline boundary the `+ 2` skip also drops the character that follows the newline |
| CitationExtract.RewriteLeavesNoTag | src/generation.py:251-254 | when the loop stops, no citation tag is left in the cleaned text |
| CitationExtract.RewriteCount | src/generation.py:251-287 | the loop matches at most as many tags as the answer has `<` characters |
| CitationExtract.RewriteNothing | src/generation.py:289-291 | no tag is matched exactly when the answer holds none, and then the text is unchanged |
| CitationExtract.CitationsOfRecords | src/generation.py:276-287 | citation records are numbered 1..N in match order, each with a non-empty digit source id and a one-line cited text |
| CitationExtract.CitationsOfListing | src/generation.py:293-296 | the citations section holds exactly one line per record |
| CitationExtract.CitationsOfShape | src/generation.py:289-302 | with no tag the answer is returned untouched with no citations; otherwise the clean text is the rewritten answer, free of tags, followed by the header and the listing |
| CitationExtract.ReplaceTags | src/generation.py:247-287 | the while loop computes the rewritten text and the records of every tag it replaced, numbered from 1 |
| CitationExtract.ListingSection | src/generation.py:293-296 | the citations section is the header followed by one line per record |
| CitationExtract.ExtractCitations | src/generation.py:229-302 | extract_citations returns the clean text and records the specification function gives |
| Generation.GenerationEngine.GenerateOneShot | src/generation.py:123-142 | the text is the pieces before the first `<\|end_of_text\|>` or the token cap, joined and stripped |
| Generation.GenerationEngine.GenerateStream | src/generation.py:165-178 | the yielded pieces are the same prefix; `_last_raw` holds every piece read, including the one the loop stopped on |
| Generation.GenerationEngine.Generate | src/generation.py:325-343 | the response carries the one-shot text, its sections, citation information for the answer section, the sources and the backend name |
| Generation.OneShotStops | src/generation.py:126-137 | no kept piece is the end-of-text piece, at most `max_tokens` pieces are kept (none when it is 0 or negative), the stop piece is the sentinel or over the cap, and the text is trimmed |
| Generation.StreamRawIsOneShotPlusStop | src/generation.py:165-178 | `_last_raw` is the one-shot text before stripping plus the stop piece when the pieces did not run out |
| Generation.ProcessAnswer | src/generation.py:333-337 | citation information is present exactly when the raw text has an answer span, and it is extract_citations of that trimmed span |
| Inference.SourcesOfSpec | src/inference.py:99-112 | search succeeds iff every row has a text; then source i has id i + 1, row i's text, and row i without its text as metadata |
| Inference.SourcesOfRoundTrip | src/inference.py:104-110 | each source gives back its row: metadata with the text put back |
| Inference.SourcesOfFails | src/inference.py:101-105 | a row without a text makes the whole search fail |
| Inference.PleiasBot.Search | src/inference.py:94-114 | the loop returns the sources of the first `limit` rows, or None on a missing text |
| Inference.PleiasBot.Predict | src/inference.py:130-143 | None stands for the KeyError the search raises outside the `try`, which leaves predict; otherwise the response is that of generate on the search's sources: its raw text, processed sections, sources and backend |
| Inference.PleiasBot.StreamPredict | src/inference.py:178-194 | None stands for the KeyError the search raises before anything is yielded; otherwise stream_predict yields one chunk per piece of the streaming loop, then the final packet with the sections and citations of `_last_raw` and the sources |
| Inference.ChunksSpec | src/inference.py:182-185 | the chunks carry the pieces in order, one each |
| MainStream.TooltipFacts | src/main_stream.py:170-173 | a tooltip match starts with `<`, fits in the text and has a non-empty digit source id |
| MainStream.TooltipCloses | src/main_stream.py:171 | a match ends at the first `</ref>` after the digits: its body contains no closing tag |
| MainStream.RenderWithTooltips | src/main_stream.py:164-195 | the html is the text with every tag, left to right, replaced by its span, wrapped in the pre-wrap div |
| MainStream.ReplaceTooltips | src/main_stream.py:175-194 | the finditer loop's joined parts equal the char-by-char rendering of the text |
| MainStream.EscapedHasNoQuote | src/main_stream.py:182 | the escaped tooltip text contains no `"` |
| MainStream.RenderedVerbatim | src/main_stream.py:178-193 | text without `<` is rendered unchanged |
| MainStream.RenderedShift | src/main_stream.py:178-193 | the rendering of a suffix does not depend on what precedes it |
| MainStream.RenderedPlainPrefix | src/main_stream.py:178-193 | a leading text without `<` is copied as is and the rest rendered on its own |
| MainStream.SendMessage | src/main_stream.py:98-148 | the frames are the views after each chunk up to the final packet; the final packet shows the rendered answer and the analysis, or a KeyError when there is no answer |
| MainStream.ChunkTextsSpec | src/main_stream.py:102-122 | the chunks are the packets before the first final packet, which ends the loop |
| MainStream.SplitVisible | src/main_stream.py:126-147 | once the marker was found, `split(marker, 1)[1]` of the grown buffer is the text after the first marker |
| MainStream.VisibleLatch | src/main_stream.py:122-147 | after the marker is seen, the visible text only grows by the chunks received since |
| MainStream.FramesLatch | src/main_stream.py:124-148 | every frame after the first shown one shows the rendering of that visible text followed by the later chunks |
| MainPrototype.SplitInTwo | src/main.py:117-118 | split gives two parts exactly when the separator occurs once; the parts are the text before and the separator-free text after it |
| MainPrototype.PrepareForFormatSpec | src/main.py:115-129 | with one `<\|source_analysis_end\|>` the analysis is the trimmed text before it and the answer the text after it without answer markers, trimmed; otherwise ("", text) |
| MainPrototype.RefAtFacts | src/main.py:133 | a reference match starts with `<ref name="`, fits in the text, and its hash and quoted text are non-empty and quote-free |
| MainPrototype.MatchesSpec | src/main.py:139 | finditer's matches are matches, left to right, without overlap, and no match starts in a gap before or between them |
| MainPrototype.FirstsSpec | src/main.py:158-164 | first-appearance order keeps every hash once and nothing else |
| MainPrototype.NumberRefsSeen | src/main.py:145-167 | seen_hashes holds exactly the accepted hashes in first-appearance order, numbered 1, 2, ...; hash_count is their number; each entry has its search result's url and text |
| MainPrototype.NumberRefsShown | src/main.py:157-181 | one reference is shown per accepted match; it shows the number its hash holds, so a repeat reuses its number, and its search result's url |
| MainPrototype.NumberRefsPos | src/main.py:146-149 | current_pos is the end of the last accepted match: a hash absent from the results does not advance it |
| MainPrototype.NumberReferences | src/main.py:134-185 | the loop's seen_hashes, shown references and final label are those of the numbering fold over finditer's matches |
| MainPrototype.DisplayFormatReferences | src/main.py:132-187 | display_format_references with the reference pattern |
| InferenceStream.FirstIffUnseen | src/inference_stream.py:24-30 | a row is the first of its hash exactly when its hash is not yet in seen_hashes |
| InferenceStream.KeptAtFirsts | src/inference_stream.py:19-35 | the kept rows are the first rows of their hash, in row order, none missed |
| InferenceStream.KeptCovers | src/inference_stream.py:19-30 | every row's hash is the hash of a kept row |
| InferenceStream.DedupeFirsts | src/inference_stream.py:19-35 | a successful search keeps, in row order, exactly the rows that are the first of their hash, as hash, section and text |
| InferenceStream.DedupeOnePerHash | src/inference_stream.py:19-30 | kept hashes are pairwise distinct and cover every row's hash |
| InferenceStream.EachSpec | src/inference_stream.py:34-38 | document blocks and html cards line up with the kept rows, one each, in the same order |
| InferenceStream.StreamPromptQuery | src/inference_stream.py:74 | the prompt opens with the query line of the one-shot format: it reads back as the message, followed by the document and `<\|source_analysis_start\|>` |
| InferenceStream.PleiasBot.Search | src/inference_stream.py:13-40 | search returns the "\n"-joined blocks and the wrapped cards of the de-duplicated rows of `.limit(1)`, or None on a KeyError |
| InferenceStream.PleiasBot.StreamPieces | src/inference_stream.py:90-95 | the loop yields a prefix of the pieces, none of them `<\|answer_end\|>`, each at an index below max_new_tokens (so none at all when it is 0 or negative), and stops only at the end, at the sentinel or at the cap |
| InferenceStream.PleiasBot.PredictStream | src/inference_stream.py:71-95 | None exactly when the search raises; otherwise the model is given the query line, the de-duplicated document and `<\|source_analysis_start\|>`, and what is yielded is a prefix of its pieces, none `<\|answer_end\|>`, each at an index below max_new_tokens (none when it is 0 or negative), ending at the sentinel, the cap or the end |

## Left out

- The NiceGUI interface (layout, CSS, tabs, scrolling, the "Thinking..." and "Thought for N seconds" placeholders, `display_sources`): presentation; `send_message` is modelled as the sequence of bubble contents it shows.
- `_AsyncGenWrapper`, `asyncio.to_thread`, `asyncio.sleep`: concurrency and event-loop hand-off; generators are modelled as run to completion, their yields as a sequence.
- llama.cpp loading, tokenizing, sampling and UTF-8 decoding with `errors="replace"`: foreign calls; the model is a parameter mapping a prompt to its pieces.
- LanceDB and pandas: external I/O; search results are a parameter (a ranked list of rows, each a map from column name to text; for src/main.py a map from hash to url and text).
- Logging, timing, argparse, the rotating log handler, and the sampling parameters (floats passed through).
- The exception branches around generation (`predict`'s `except` returning None, `predict_stream`'s `except`): they catch failures of the foreign model calls, which are not modelled.
- `Inference.PleiasBot.Predict`: its docstring promises None on any error, but the search runs before the `try` (src/inference.py:130-134), so a row without a text raises KeyError out of predict; the model's None is that raised error, and predict's own `return None` is never produced.
- `display_format_references`: the `KeyError` handler around the pandas lookup (a missing column) is not modelled; the lookup is the map `known`.
- The "clean_answer" and "citations" keys: `generate` and `stream_predict` add "clean_answer" and "citations" to the sections dict; the model keeps them beside the sections as `citationInfo`.
- `extract_citations`'s `sources` argument is unused by the source and is not a parameter.
- `\d` is modelled as the ASCII digits; Python's `\d` also matches other Unicode decimal digits.
- Values of search rows are modelled as text: `str(row['hash'])` and the f-string formatting of non-string columns are taken as already applied.
- The module-level `__main__` blocks.
- `extract_citations` on `It is blue. <ref name="<|source_id|>1">sky color</ref>.` gives the supported text "", not "It is blue.": the last boundary is the ". " at index 10, the `+ 2` skip moves past it to the end of the text before the tag, and the "**Citations**" listing is appended to the clean text. The model follows the code.
- Rendering is specified by a character-by-character rendering (a tag is replaced and skipped, any other character kept); `ReplaceTooltips` proves the finditer loop equal to it.
- `MainPrototype.PrepareForFormatSpec`: does not claim the answer is free of answer markers, because a single-pass `replace` can join two halves into a new marker.
