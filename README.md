# Configuration reader and writer: a Dafny model

This project models the core of a small Java properties utility. It has two
independent singletons, and the container `ConfigWriter` uses for each
target's pending fields.

- **`ConfigItem`** is a field-to-value map. It supports insert-or-replace
  (`addOneItem`), a paired bulk insert guarded by a length check
  (`addAllItem`), `size`, and a `toString` that emits one `field=value` line
  per field, in the key set's iteration order.
- **`ConfigWriter`** keeps a registry of output targets. It has three maps,
  each keyed by the canonical path of `BASE_DIR + "/" + name`:
  - the open handle;
  - the pending `ConfigItem`;
  - the header text.

  `write` sends the header lines, each prefixed with `"# "`, followed by the
  item's serialisation. `close`, `delete`, `clear` and `closeAll` manage the
  handles.
- **`Configuration`** resolves a file name under one of three modes: class
  path, physical path or HDFS. It parses the resource into a map and caches
  that map under the caller's own name. Every load that gets far enough also
  overwrites `BASE_DIR`. `getResource` normalises class-path names, and
  `getResources` keeps the names that resolve.

The files are:

- `common.dfy`: `Option` and `Enumerates`, which says that a sequence lists a
  set's elements once each. `Enumerates` is how a HashMap key-set iteration
  order is modelled.
- `java_strings.dfy`: `String.split(String)` with a one-character separator,
  which drops trailing empty pieces, as the code calls it. Its building blocks
  are the first occurrence of a character, which the reference reader also
  uses, and splitting at every separator.
- `config_item.dfy`: the `ConfigItem` class and its serialisation. It also
  holds a reference reader for `key=value` text, used to state the
  serialisation's round trip.
- `config_writer.dfy`: the `ConfigWriter` class and a header-then-field
  scenario.
- `configuration.dfy`: the `Configuration` class, `getResource`,
  `getResources` and the name normalisation.

Design decisions:

- **Handles.** A writer handle is a value: the text written through it and
  whether it is still open.
- **The disk.** The file system is a map from path to contents, as they
  stand after the last flush:
  - `open` truncates the file;
  - closing an open handle flushes what was written through it;
  - closing a closed handle changes nothing;
  - `delete` removes the file.
- **Writer inputs.** Canonicalisation (`File.getCanonicalPath`) and whether
  a `FileWriter` can create a file are given to the writer as functions.
  While `BASE_DIR` is unset, the path text starts with `"null"`, as Java's
  string concatenation renders it.
- **Reader collaborators.** Everything the reader calls outside the class is
  given as a `Resolver` value holding functions: the class loader,
  URL/URI construction, `Properties.load` and the HDFS client.
- **Results of the ConfigWriter methods.** The thrown and caught exceptions
  of `write` are explicit outcomes.
- **Results of the Configuration methods.** The Java `null` results of
  `getResource`, `readProperty`, `propertyNames` and `getResources` are
  `Option` values or outcome datatypes, and the thrown and caught exceptions
  of `loadProperties` are explicit outcomes.

Three behaviours of the code that look unintended are reproduced as
written:

- **`close` and `delete` keep their keys.** Both call
  `configList.remove(dFile)` with a `File` on a `String`-keyed map, so the
  entry is never removed. The model keeps the closed handle registered.
- **`close` and `delete` never report a missing target.** They return the
  canonical path even when the target was never opened.
- **`addMultipleConfig` always replaces the pending item.** It tests
  `containsKey(dFile)` with the same `File` key, and that test is always
  false. So it installs a fresh item, and any fields already pending for
  that target are dropped.

## Model

| member | source | states |
|---|---|---|
| ConfigItems.ConfigItem.constructor | src/main/java/com/skplanet/nlp/config/ConfigItem.java:30-32 | a new item holds no fields |
| ConfigItems.ConfigItem.Size | src/main/java/com/skplanet/nlp/config/ConfigItem.java:38-40 | the size is zero exactly when the item holds no field |
| ConfigItems.ConfigItem.AddOneItem | src/main/java/com/skplanet/nlp/config/ConfigItem.java:47-54 | the map sends `field` to `value`; every other field keeps its binding; the size grows by one exactly when `field` was absent |
| ConfigItems.ConfigItem.AddAllItem | src/main/java/com/skplanet/nlp/config/ConfigItem.java:61-71 | arrays of different lengths leave the map unchanged; otherwise the new map is `addOneItem` folded left over the pairs in index order |
| ConfigItems.AddAllLastWins | src/main/java/com/skplanet/nlp/config/ConfigItem.java:68-70 | bulk insertion adds exactly the listed fields, keeps every other binding, and a field listed more than once gets the value of its last occurrence |
| ConfigItems.ConfigItem.ToString | src/main/java/com/skplanet/nlp/config/ConfigItem.java:74-83 | the text is one `key=value\n` line per key, in an iteration order that lists every key exactly once; it is empty exactly when the item has no field |
| ConfigItems.RenderLines | src/main/java/com/skplanet/nlp/config/ConfigItem.java:79-81 | split at line breaks, the serialisation has line `i` equal to `key_i=value_i` for the `i`-th key, and then one empty piece after the last break; needs keys and values without a line break |
| ConfigItems.LineCountIsSize | src/main/java/com/skplanet/nlp/config/ConfigItem.java:74-83 | the serialisation has exactly `size()` line breaks, so it has `size()` lines; needs keys and values without a line break |
| ConfigItems.ParseRender | src/main/java/com/skplanet/nlp/config/ConfigItem.java:79-81 | reading the serialisation of any distinct key list back gives the bindings of exactly those keys. This needs keys without `=`, a line break or a leading `#`, and values without a line break |
| ConfigItems.RoundTrip | src/main/java/com/skplanet/nlp/config/ConfigItem.java:74-83 | for every iteration order, the serialisation reads back as the item. This needs keys without `=`, a line break or a leading `#`, and values without a line break |
| ConfigItems.EmptyRendersEmpty | src/main/java/com/skplanet/nlp/config/ConfigItem.java:74-83 | an item with no fields serialises to the empty text |
| ConfigItems.ParseSkipsComment | src/main/java/com/skplanet/nlp/config/ConfigItem.java:25 | a line starting with `#` (the header tag's first character) adds nothing when the text is read back |
| JavaStrings.JavaSplitKeepsAll | src/main/java/com/skplanet/nlp/writer/ConfigWriter.java:106 | a non-empty header that does not end with a line break splits into all of its lines |
| JavaStrings.JavaSplitOnlySeparators | src/main/java/com/skplanet/nlp/writer/ConfigWriter.java:106 | a header made only of line breaks splits into no lines, because trailing empty pieces are dropped |
| JavaStrings.JavaSplitPieces | src/main/java/com/skplanet/nlp/writer/ConfigWriter.java:106 | no header line holds a line break |
| JavaStrings.JoinSplitAll | src/main/java/com/skplanet/nlp/writer/ConfigWriter.java:106 | splitting at every separator loses nothing: the pieces joined with the separator give back the text |
| JavaStrings.SplitAllJoin | src/main/java/com/skplanet/nlp/writer/ConfigWriter.java:106 | pieces without separators, joined and then split, come back unchanged |
| JavaStrings.SplitAllLastEmpty | src/main/java/com/skplanet/nlp/writer/ConfigWriter.java:106 | the last piece is empty exactly when the text is empty or ends with the separator |
| ConfigWriters.ConfigWriter.constructor | src/main/java/com/skplanet/nlp/writer/ConfigWriter.java:55-59 | a new writer has empty registries and no base directory |
| ConfigWriters.ConfigWriter.SetBaseDir | src/main/java/com/skplanet/nlp/writer/ConfigWriter.java:119-128 | the directory is recorded whether or not it exists or is a directory |
| ConfigWriters.ConfigWriter.Open | src/main/java/com/skplanet/nlp/writer/ConfigWriter.java:131-149 | with no base directory, or a file that cannot be created, `open` returns `None` and changes nothing. Otherwise it returns the canonical path, truncates the file, and registers a fresh empty open handle there, replacing any earlier handle without closing it |
| ConfigWriters.ConfigWriter.AddHeader | src/main/java/com/skplanet/nlp/writer/ConfigWriter.java:66-79 | the target's header becomes the text, replacing any earlier one; nothing else changes |
| ConfigWriters.ConfigWriter.Clear | src/main/java/com/skplanet/nlp/writer/ConfigWriter.java:85-95 | an unregistered target changes nothing. A registered one is closed (flushing it if open) and reopened, so its file ends up truncated with a fresh handle, or closed if it cannot be recreated. The pending item and header are untouched |
| ConfigWriters.ConfigWriter.Write | src/main/java/com/skplanet/nlp/writer/ConfigWriter.java:98-116 | with no handle, `write` throws a null-pointer exception. On a closed handle it fails with an I/O error, or with a null-pointer exception when the header yields no lines (none registered, or only line breaks) and no item is pending. On an open handle it appends the header lines, each tagged `# `, and then the item's serialisation. With no item it throws after the header lines have been appended. It touches nothing but that handle |
| ConfigWriters.HeaderText | src/main/java/com/skplanet/nlp/writer/ConfigWriter.java:105-110 | the header text sent is `# line\n` for each split line, in order |
| ConfigWriters.WrittenReadsBack | src/main/java/com/skplanet/nlp/writer/ConfigWriter.java:98-116 | what `write` sends through a fresh handle reads back as the pending item, whatever the header, because every header line is a comment. This needs keys without `=`, a line break or a leading `#`, and values without a line break |
| ConfigWriters.ConfigWriter.Close | src/main/java/com/skplanet/nlp/writer/ConfigWriter.java:152-164 | `close` returns the canonical path. A registered target's handle is closed and its text flushed to the file, and the entry stays in the registry. An unregistered target changes nothing |
| ConfigWriters.ConfigWriter.Delete | src/main/java/com/skplanet/nlp/writer/ConfigWriter.java:167-180 | like `close`, and a registered target's file is also removed from the disk. An unregistered target changes nothing |
| ConfigWriters.ConfigWriter.CloseAll | src/main/java/com/skplanet/nlp/writer/ConfigWriter.java:183-195 | every open handle's text reaches its file, the other files keep their contents, and the handle registry ends up empty. Items and headers are untouched |
| ConfigWriters.FlushedAllEmpty | src/main/java/com/skplanet/nlp/writer/ConfigWriter.java:183-195 | with no handles registered, `closeAll` leaves the disk as it is |
| ConfigWriters.ConfigWriter.AddSingleConfig | src/main/java/com/skplanet/nlp/writer/ConfigWriter.java:205-220 | get-or-create: the target's pending fields are kept, or start empty, and `field` is set to `value`. Every other target's pending content is unchanged |
| ConfigWriters.ConfigWriter.AddMultipleConfig | src/main/java/com/skplanet/nlp/writer/ConfigWriter.java:229-250 | the target's pending content is replaced by a fresh item built from the pairs, or an empty one for unpaired arrays. Whatever was pending before is dropped, and other targets are unchanged |
| ConfigWriters.HeaderThenFieldScenario | src/main/java/com/skplanet/nlp/writer/ConfigWriter.java:252-272 | the sequence set base directory, open, header `H1\nH2`, field `k=v`, write, close leaves the file holding exactly `# H1\n# H2\nk=v\n`, for a target file that can be created |
| ConfigWriters.HeaderTwoLines | src/main/java/com/skplanet/nlp/writer/ConfigWriter.java:106 | the header `H1\nH2` splits into the two lines `H1` and `H2` |
| Configurations.StripQuotes | src/main/java/com/skplanet/nlp/config/Configuration.java:96 | every double quote is deleted: the result has no quote, holds every other character as often as the name does, is shorter by exactly the number of quotes, and is the name itself when the name has no quote; with `StripQuotesConcat` this keeps the other characters in order |
| Configurations.StripQuotesConcat | src/main/java/com/skplanet/nlp/config/Configuration.java:96 | quote removal works piece by piece and keeps everything else in order |
| Configurations.NormaliseClasspathName | src/main/java/com/skplanet/nlp/config/Configuration.java:96-99 | the lookup name has no quote. It is the unquoted name, or that name without one leading `/`, and it is the name unchanged when the name has no quote and no leading `/` |
| Configurations.NormaliseStripsOneSlash | src/main/java/com/skplanet/nlp/config/Configuration.java:97-99 | only one leading `/` is dropped: `//a` is looked up as `/a` |
| Configurations.GetResource | src/main/java/com/skplanet/nlp/config/Configuration.java:92-135 | class-path mode looks up the normalised name, physical mode builds the file URL, HDFS mode builds the URL, and any other mode resolves to `None` |
| Configurations.ResolvedConcat | src/main/java/com/skplanet/nlp/config/Configuration.java:145-150 | resolving a concatenation of names concatenates the resolutions, so input order is kept |
| Configurations.ResolvedMembers | src/main/java/com/skplanet/nlp/config/Configuration.java:145-150 | a URL is among the resolutions exactly when some name resolves to it, and there are never more resolutions than names |
| Configurations.GetResources | src/main/java/com/skplanet/nlp/config/Configuration.java:143-158 | the result is `None` exactly when no name resolves, an empty input included. Otherwise it is the non-null resolutions in input order |
| Configurations.Configuration.constructor | src/main/java/com/skplanet/nlp/config/Configuration.java:69-71 | a new reader has an empty cache and no base directory |
| Configurations.Configuration.GetProperties | src/main/java/com/skplanet/nlp/config/Configuration.java:165-167 | the cached properties of exactly the names cached with properties; `None` otherwise |
| Configurations.Configuration.LoadProperties | src/main/java/com/skplanet/nlp/config/Configuration.java:181-242 | see the list below the table |
| Configurations.Configuration.ReadProperty | src/main/java/com/skplanet/nlp/config/Configuration.java:251-265 | a value exactly when the name is cached with properties holding the field, and then the cached value |
| Configurations.Configuration.PropertyNames | src/main/java/com/skplanet/nlp/config/Configuration.java:274-287 | `NotLoaded` exactly for an uncached name, a null-pointer exception exactly for a name cached as null, and otherwise every field of the cached map exactly once |
| Configurations.Configuration.PropertyNamesList | src/main/java/com/skplanet/nlp/config/Configuration.java:294-309 | the same three cases as `propertyNames` |
| Configurations.ReloadReplaces | src/main/java/com/skplanet/nlp/config/Configuration.java:181-265 | a class-path load followed by a physical load of the same name leaves only the second file's fields readable when both loads succeed: a reload replaces the entry, it does not merge |

What `Configurations.Configuration.LoadProperties` states:

- A successful load caches the parsed map under the raw name. It replaces any
  earlier entry.
- Every failure leaves the cache unchanged.
- Class-path mode uses the unnormalised name:
  - if no URL resolves, it throws a null-pointer exception before touching
    `BASE_DIR`;
  - otherwise `BASE_DIR` becomes the URL's path, even if reading then fails.
- Physical mode sets `BASE_DIR` to the name before the read can fail.
- HDFS mode:
  - a name without the `hdfs://` prefix, or a stream that cannot be opened,
    throws a null-pointer exception with `BASE_DIR` unchanged;
  - otherwise `BASE_DIR` becomes the URI's path, and a parse failure also
    ends in a null-pointer exception.
- Any other mode caches null under the name.

## Left out

- Singleton construction (`getInstance`) and its unsynchronised race:
  concurrency is outside the model, which uses one explicitly constructed
  instance of each class.
- The one-argument overloads `getResource(name)` and `loadProperties(name)`:
  they only pass `CLASSPATH_LOAD` to the two-argument forms this model covers.
- `getBaseDir` is a plain field read; the model's `baseDir` field is that
  value.
- Real I/O is a foreign call and is given as inputs:
  - the class loader, `File.toURI().toURL()`, URL and URI construction;
  - the Hadoop configuration, `FileSystem` and `URL.setURLStreamHandlerFactory`;
  - `Properties.load`.

  The model sees only their results: a URL or none, a path, a parsed map or a
  failure.
- The grammar of `Properties.load` (escapes, continuation lines, `:`
  separators, whitespace) is library code. The round-trip lemmas read text
  back with a simpler reference reader. It splits at line breaks, skips empty
  and `#` lines, splits each line at its first `=`, and lets a later line win.
- Buffering inside `BufferedWriter`: the model shows a file's contents only
  when a handle is closed, not after the automatic flushes of a full buffer.
- Write and close failures on an open handle are left out; only the
  closed-stream `IOException` of `write` is modelled. `File.delete` is
  assumed to succeed.
- The `IOException` paths of `getCanonicalPath` are left out. Canonicalisation
  is a total function, so `close` and `delete` never return null.
- Logging to `System.err` and `printStackTrace`.
- Null arguments, such as a null name or null arrays, are left out; every
  argument is a value.
- Configurations.Configuration.GetProperties: returns a copy of the cached
  map. Java hands out the cached `Properties` object itself, so a caller that
  mutates it changes what later `readProperty` and `propertyNames` see; that
  aliasing is not modelled.
- ConfigWriters.ConfigWriter.Delete: the disk has no symbolic links, so the
  file at `BASE_DIR + "/" + name` and the one at its canonical path are the
  same. Java deletes the uncanonicalised path, which for a link removes the
  link and not its target.
- The sample programs, the commented-out `main` blocks other than the
  header-then-field sequence, and the interfaces `Configurable` and
  `ConfigWritable`, which declare the same methods without logic.
- ConfigItems.ConfigItem.ToString: HashMap iteration order is not modelled. It
  is a ghost out-parameter that the contract only requires to list every key
  once, so the text is stated up to that order.
