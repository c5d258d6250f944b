# PluginBase text core, modelled in Dafny

PluginBase is a library for Minecraft server plugins. This project models the pure text logic
at its core and proves properties of that model:

- **Localization.** Chat colours and theme tags (`ChatColors`, `Themes`), message values and
  their registry (`MessageValues`, `MessageRegistry`), and the two default message providers
  that load a language file and repair it (`LegacyMessageProvider`, `CoreMessageProvider`).
- **Commands.** The alias tree that joins typed words into a registered command name
  (`CommandTrees`), the argument and flag parser (`CommandContexts`), command metadata and the
  builder's patterns (`CommandInfos`, `CommandBuilders`, `StringOrder`), and the handler's
  registration and lookup (`CommandHandlers`).
- **Time.** Short and long duration forms and `Duration` (`TimeTools`, `Durations`), with
  Java's truncating division and 64-bit wrap-around written out.
- **YAML comments.** The comment map and the comment instrumenter for YAML files
  (`YamlComments`, `YamlInstrumenter`).
- **Plugin settings and logging.** Settings with the debug-level validator and the locale
  serializer (`PluginSettings`), and the plugin logger's routing of levels and its debug
  subscriptions (`PluginLogging`).
- **Permissions.** Permission names and the permission builder with its static registry
  (`Perms`, `PermFactories`).
- **Chat word wrapping.** The Sponge messager's word wrapper (`WordWrapping`).

Shared pieces are `Wrappers` (`Option`, `Result`) and `Strings`. `Strings` holds Java's
`String.split` with limit 0, which drops trailing empty pieces; joining; ASCII case mapping;
trimming; and integer parsing.

Everything is modelled as immutable values and pure functions. A mutable object becomes a
datatype, and each mutator returns the new value. An exception becomes the `Failure` case of
a `Result`.

Three details of the code that the model follows as written:

- A theme marker escaped with a backslash is copied as it stands, and the backslash before it
  is kept in the output; the escape only stops the marker from being read as a tag
  (`pluginbase-core/messages/src/main/kotlin/pluginbase/messages/Theme.kt:163`, `:171-172`).
- When the command handler reads a flag specification, it adds to its allowed-flag set the
  `:` that follows each value-flag letter, not the letter itself
  (`pluginbase-core/commands/src/main/java/pluginbase/command/CommandHandler.java:281-286`).
  Unknown flags are only looked for among boolean flags, so this changes no outcome.
- `Duration` calls a `pluginbase.util.time.TimeTools`, and that file is not part of this
  model. The `com.dumptruckman` `TimeTools`, which has the same operations, stands in for it.

## Model

| member | source | states |
|---|---|---|
| ChatColors.IsColor | pluginbase-core/messages/src/main/kotlin/pluginbase/messages/ChatColor.kt:121-122 | true exactly for the sixteen colour codes `0`-`9` and `a`-`f`, the ones with a numeric code below 0x10; never for a format code or RESET |
| ChatColors.ValueOf | pluginbase-core/messages/src/main/kotlin/pluginbase/messages/ChatColor.kt:26-110 | the entry whose constant name is the given text, and none when no entry has that name |
| ChatColors.GetByChar | pluginbase-core/messages/src/main/kotlin/pluginbase/messages/ChatColor.kt:144-146 | the entry whose code character is the given one, and none when no entry has it |
| ChatColors.GetByCharCode | pluginbase-core/messages/src/main/kotlin/pluginbase/messages/ChatColor.kt:228-233 | the by-character table filled from all entries finds every entry by its own code character, so no two entries share one |
| ChatColors.MarkerIsNoCode | pluginbase-core/messages/src/main/kotlin/pluginbase/messages/ChatColor.kt:131 | the section sign itself names no entry |
| ChatColors.TranslateAlternateColorCodes | pluginbase-core/messages/src/main/kotlin/pluginbase/messages/ChatColor.kt:185-194 | the translation keeps the length, and the last character is kept or only lower-cased |
| ChatColors.TranslatePairs | pluginbase-core/messages/src/main/kotlin/pluginbase/messages/ChatColor.kt:187-191 | for an alternate character that is not itself a code character: an alternate character followed by a code character becomes the section sign, and that code character is lower-cased; every other position is unchanged, including an alternate character in last place |
| ChatColors.TranslateInPlace | pluginbase-core/messages/src/main/kotlin/pluginbase/messages/ChatColor.kt:185-194 | the loop over the mutable character array, where a rewrite is seen by the next step, computes the same text as the recursive scan |
| ChatColors.GetLastColors | pluginbase-core/messages/src/main/kotlin/pluginbase/messages/ChatColor.kt:203-226 | the result is one code followed only by format codes, and a text without a section sign gives "" |
| ChatColors.ScanCarried | pluginbase-core/messages/src/main/kotlin/pluginbase/messages/ChatColor.kt:208-222 | scanning backwards collects format codes and stops after the first colour or RESET |
| ChatColors.LastColorsOfAppended | pluginbase-core/messages/src/main/kotlin/pluginbase/messages/ChatColor.kt:208-222 | a colour or RESET at the end of a text is all that carries over; a format code at the end is added after what the earlier text carries |
| ChatColors.StripDrawn | pluginbase-core/messages/src/main/kotlin/pluginbase/messages/ChatColor.kt:166-172 | stripping only removes characters: every character of the result, counted with multiplicity, comes from the text |
| ChatColors.StripLength | pluginbase-core/messages/src/main/kotlin/pluginbase/messages/ChatColor.kt:166-172 | stripping removes characters two at a time: the result is no longer than the text, and shorter by an even number |
| ChatColors.StripPlain | pluginbase-core/messages/src/main/kotlin/pluginbase/messages/ChatColor.kt:166-172 | a text without a section sign is unchanged by stripping |
| ChatColors.StripLeadingCodes | pluginbase-core/messages/src/main/kotlin/pluginbase/messages/ChatColor.kt:171 | codes in front of a text disappear entirely under stripping |
| ChatColors.StripInsert | pluginbase-core/messages/src/main/kotlin/pluginbase/messages/ChatColor.kt:171 | codes inserted before a character that is neither a code character nor a section sign disappear without touching the text around them |
| ChatColors.StripPlainPrefix | pluginbase-core/messages/src/main/kotlin/pluginbase/messages/ChatColor.kt:171 | text without a section sign in front of any text survives stripping unchanged |
| Themes.ThemeValueOf | pluginbase-core/messages/src/main/kotlin/pluginbase/messages/Theme.kt:11-37 | the theme whose constant name is the given text, and none otherwise |
| Themes.GetColor | pluginbase-core/messages/src/main/kotlin/pluginbase/messages/Theme.kt:133-136 | one code for each present colour or style, colour first; RESET's code when both are absent, so the result is never empty |
| Themes.ThemeCodeStrips | pluginbase-core/messages/src/main/kotlin/pluginbase/messages/Theme.kt:42-44 | a theme's text consists of codes only and disappears under colour stripping |
| Themes.LoadBlocksFirstWins | pluginbase-core/messages/src/main/kotlin/pluginbase/messages/Theme.kt:116-117 | a tag already in the table keeps its text, and a new tag gets the colour of the first block that has a tag and a colour or style |
| Themes.StepClaimed | pluginbase-core/messages/src/main/kotlin/pluginbase/messages/Theme.kt:116-124 | one block keeps every claimed theme registered under its own tag with its own code, and only removes themes from the unclaimed set |
| Themes.LoadBlocksClaimed | pluginbase-core/messages/src/main/kotlin/pluginbase/messages/Theme.kt:61-125 | the whole document loop keeps the same |
| Themes.AddDefaultsCovers | pluginbase-core/messages/src/main/kotlin/pluginbase/messages/Theme.kt:128-130 | the defaults loop never replaces an entry, and afterwards every unclaimed theme's tag is in the table |
| Themes.LoadThemeProperties | pluginbase-core/messages/src/main/kotlin/pluginbase/messages/Theme.kt:52-131 | after loading, every theme's tag is in the table, and each tag the document names maps to the colour of the first qualifying block with that tag |
| Themes.ParseMessage | pluginbase-core/messages/src/main/kotlin/pluginbase/messages/Theme.kt:157-181 | the empty message expands to "", and a non-empty message's last character is always the result's last character |
| Themes.ParseMessageFixed | pluginbase-core/messages/src/main/kotlin/pluginbase/messages/Theme.kt:157-181 | the corrected expansion of the empty message is "" |
| Themes.PrevIrrelevant | pluginbase-core/messages/src/main/kotlin/pluginbase/messages/Theme.kt:163-174 | the remembered previous character matters only when it is the escape character |
| Themes.ParseTag | pluginbase-core/messages/src/main/kotlin/pluginbase/messages/Theme.kt:163-167 | a marker followed by a known tag becomes the tag's code, both characters are consumed, and the rest is expanded on its own |
| Themes.ParseUnknownTag | pluginbase-core/messages/src/main/kotlin/pluginbase/messages/Theme.kt:168-170 | a marker followed by an unknown character is copied, and the scan resumes at that character |
| Themes.ParseEscaped | pluginbase-core/messages/src/main/kotlin/pluginbase/messages/Theme.kt:163-172 | a marker after the escape character is copied, and the escape character is kept too |
| Themes.ParseMessageNoMarker | pluginbase-core/messages/src/main/kotlin/pluginbase/messages/Theme.kt:157-181 | a message without the marker is returned unchanged by both versions |
| Themes.ParseVersions | pluginbase-core/messages/src/main/kotlin/pluginbase/messages/Theme.kt:161-179 | the version as written and the corrected one differ at most by one repeated last character |
| Themes.ParseTagAtEnd | pluginbase-core/messages/src/main/kotlin/pluginbase/messages/Theme.kt:177-179 | a message ending in a marker and a known tag gets the tag character appended after the code; the corrected version gives the code alone |
| MessageValues.CountArgsPositions | pluginbase-core/messages/src/main/kotlin/pluginbase/messages/Message.kt:150-157 | the left-to-right search counts every position where `%s` starts, because `%s` cannot overlap itself |
| MessageValues.NoPercentNoArgs | pluginbase-core/messages/src/main/kotlin/pluginbase/messages/Message.kt:150-157 | a text without `%` expects no arguments |
| MessageValues.SplitKey | pluginbase-core/messages/src/main/kotlin/pluginbase/messages/Message.kt:34 | the key's segments contain no dot, and the last one is not empty |
| MessageValues.SplitKeyJoin | pluginbase-core/messages/src/main/kotlin/pluginbase/messages/Message.kt:34 | a key that does not end in a dot is rebuilt by joining its segments with dots |
| MessageValues.JoinSplitKey | pluginbase-core/messages/src/main/kotlin/pluginbase/messages/Message.kt:34 | segments without dots, the last one non-empty, are split back out of their dotted join |
| MessageValues.NewMessage | pluginbase-core/messages/src/main/kotlin/pluginbase/messages/Message.kt:20-44 | the argument count is the number of `%s` in the stored, theme-expanded default; a key is present exactly when one was given, and is the split key; a default without markers is stored as given |
| MessageValues.CreateMessage | pluginbase-core/messages/src/main/kotlin/pluginbase/messages/Message.kt:88-90 | the message has the split key, and its count matches its default |
| MessageValues.CreateStaticMessage | pluginbase-core/messages/src/main/kotlin/pluginbase/messages/Message.kt:103-105 | the message has no key, and its count matches its default |
| MessageValues.CreatedLines | pluginbase-core/messages/src/main/kotlin/pluginbase/messages/Message.kt:88-90 | without theme markers or newlines in the lines, the stored default splits at newlines back into the default and the extra lines |
| MessageValues.Bundle | pluginbase-core/messages/src/main/kotlin/pluginbase/messages/Message.kt:57-65 | a bundle of the message and the arguments is always returned, and a warning is due exactly when the number of arguments differs from the count |
| MessageValues.NewMessageWellFormed | pluginbase-core/messages/src/main/kotlin/pluginbase/messages/Message.kt:27-44 | every constructed message records the count of its own default |
| MessageRegistry.PutAll | pluginbase-core/messages/src/main/java/pluginbase/messages/Messages.java:130-132 | each message is put only when its key is absent: the keys of the keyed messages are added, no entry present is replaced, a key that was absent gets the first message carrying it, and every entry stays under its own key |
| MessageRegistry.PutAllConcat | pluginbase-core/messages/src/main/java/pluginbase/messages/Messages.java:99-144 | putting two runs of messages one after the other is putting their concatenation |
| MessageRegistry.PutAllPresent | pluginbase-core/messages/src/main/java/pluginbase/messages/Messages.java:130-132 | putting messages whose keys are all present changes nothing |
| MessageRegistry.RegisterFields | pluginbase-core/messages/src/main/java/pluginbase/messages/Messages.java:112-140 | the field loop puts the messages of the static final message-typed fields holding a non-null keyed value, in field order, first one winning |
| MessageRegistry.RegisterClass | pluginbase-core/messages/src/main/java/pluginbase/messages/Messages.java:90-145 | the registry class changes nothing; any other class puts the four generic messages and then its own and its nested classes' declarations, depth first, each only when its key is absent |
| MessageRegistry.RegisterNested | pluginbase-core/messages/src/main/java/pluginbase/messages/Messages.java:142-144 | into a map already holding the generic keys, the nested-class recursion puts the declarations of the remaining nested classes in order, first one winning |
| MessageRegistry.RegisterMessages | pluginbase-core/messages/src/main/java/pluginbase/messages/Messages.java:90-98 | registering the registry class changes nothing; otherwise the owner's map, empty if it had none, gets the class's registration first-wins, and every other owner is untouched |
| MessageRegistry.RegisterClassTwice | pluginbase-core/messages/src/main/java/pluginbase/messages/Messages.java:99-144 | registering a class into a map it was already registered into changes nothing |
| MessageRegistry.RegisterTwice | pluginbase-core/messages/src/main/java/pluginbase/messages/Messages.java:90-145 | registering the same class for the same owner twice is the same as once |
| MessageRegistry.GetMessageKeys | pluginbase-core/messages/src/main/java/pluginbase/messages/Messages.java:33-38 | fails exactly when the owner has registered nothing; otherwise the owner's keys |
| MessageRegistry.GetMessage | pluginbase-core/messages/src/main/java/pluginbase/messages/Messages.java:41-49 | fails exactly for an unknown owner; a null key gives BLANK; a key gives the message registered under it, and none exactly when it is not registered |
| MessageRegistry.ContainsMessageKey | pluginbase-core/messages/src/main/java/pluginbase/messages/Messages.java:51-56 | fails exactly for an unknown owner; otherwise true exactly when the key is registered |
| MessageRegistry.RegisteredFound | pluginbase-core/messages/src/main/java/pluginbase/messages/Messages.java:90-145 | after registration every generic and declared key is found, and the message found carries that key |
| MessageRegistry.RegisteredFirstWins | pluginbase-core/messages/src/main/java/pluginbase/messages/Messages.java:99-144 | a key the owner did not have before is answered with the first message registered under it, generic messages first, then the declarations in order |
| MessageRegistry.GenericsWin | pluginbase-core/messages/src/main/java/pluginbase/messages/Messages.java:99-110 | the generic messages are seeded before any field is read, so a class declaring `generic.success` or `generic.error` itself does not replace them |
| MessageRegistry.IdentityKeyedDuplicates | pluginbase-core/messages/src/main/java/pluginbase/messages/Messages.java:30 | with arrays compared by identity, two declarations of the same dotted key are both stored, and an equal array made elsewhere finds nothing |
| MessageRegistry.StructuralKeysFirstWins | pluginbase-core/messages/src/main/java/pluginbase/messages/Messages.java:130-132 | with keys compared by contents, the second declaration of an equal key is ignored and the first is found |
| LegacyMessageProvider.RepairKey | messages/src/main/java/com/dumptruckman/minecraft/pluginbase/messages/DefaultMessageProvider.java:96-107 | one step touches only the registered key: a missing entry or one with the wrong number of `%s` gets the default, a correct one is kept, and every other entry is unchanged |
| LegacyMessageProvider.RepairAllSpec | messages/src/main/java/com/dumptruckman/minecraft/pluginbase/messages/DefaultMessageProvider.java:94-108 | over distinct registered keys, the loop adds exactly the listed keys, leaves unlisted entries alone, and leaves each listed key as its own step would |
| LegacyMessageProvider.RepairAllComplete | messages/src/main/java/com/dumptruckman/minecraft/pluginbase/messages/DefaultMessageProvider.java:94-108 | over an enumeration of all registered keys, the loop gives the reconciled file whatever the order |
| LegacyMessageProvider.GetProperties | messages/src/main/java/com/dumptruckman/minecraft/pluginbase/messages/DefaultMessageProvider.java:68-110 | the loop over the registered keys, with its invariant, computes the reconciled file |
| LegacyMessageProvider.Prune | messages/src/main/java/com/dumptruckman/minecraft/pluginbase/messages/DefaultMessageProvider.java:55-65 | exactly the unregistered entries are removed; the others keep their text |
| LegacyMessageProvider.LoadContents | messages/src/main/java/com/dumptruckman/minecraft/pluginbase/messages/DefaultMessageProvider.java:26-33 | after loading the file holds exactly the registered keys; an entry with the right `%s` count keeps the file's text, any other gets the default |
| LegacyMessageProvider.LoadIdempotent | messages/src/main/java/com/dumptruckman/minecraft/pluginbase/messages/DefaultMessageProvider.java:26-33 | loading a file that was already loaded and stored changes nothing |
| LegacyMessageProvider.LoadedCounts | messages/src/main/java/com/dumptruckman/minecraft/pluginbase/messages/DefaultMessageProvider.java:94-108 | when every registered count is that of its own default, every loaded entry has the expected number of `%s` |
| LegacyMessageProvider.GetMessage | messages/src/main/java/com/dumptruckman/minecraft/pluginbase/messages/DefaultMessageProvider.java:112-119 | the file's text for the key, and "" when the key has no entry |
| LegacyMessageProvider.Format | messages/src/main/java/com/dumptruckman/minecraft/pluginbase/messages/DefaultMessageProvider.java:130-154 | the formatter always receives the `&`-translated template; its output is the result when it accepts it, and the translated template, of the original's length, when it rejects it |
| LegacyMessageProvider.FormatFallback | messages/src/main/java/com/dumptruckman/minecraft/pluginbase/messages/DefaultMessageProvider.java:130-154 | a rejected template comes back `&`-translated: each `&` before a code character becomes the section sign, and nothing else changes but that code's case |
| LegacyMessageProvider.GetLocalizedMessage | messages/src/main/java/com/dumptruckman/minecraft/pluginbase/messages/DefaultMessageProvider.java:156-160 | a key with an entry formats that entry, a key without one formats the empty text, and that stays "" when the formatter rejects it |
| CoreMessageProvider.SetValue | pluginbase-core/messages/src/main/java/pluginbase/messages/DefaultMessageProvider.java:77 | setting a leaf stores the text at the key, keeps every leaf not on the way to it, and adds no other path |
| CoreMessageProvider.FillKey | pluginbase-core/messages/src/main/java/pluginbase/messages/DefaultMessageProvider.java:72-85 | as written, a key with no node gets its default, and an existing node is never changed, whatever its `%s` count; with the repair, a leaf with the wrong count also gets its default |
| CoreMessageProvider.FillKeyElsewhere | pluginbase-core/messages/src/main/java/pluginbase/messages/DefaultMessageProvider.java:72-85 | a step for one registered key changes nothing at or below another, when neither lies below the other |
| CoreMessageProvider.FillAllSpec | pluginbase-core/messages/src/main/java/pluginbase/messages/DefaultMessageProvider.java:72-85 | over distinct prefix-free registered keys, unlisted keys are untouched and each listed key ends as its own step leaves it |
| CoreMessageProvider.Load | pluginbase-core/messages/src/main/java/pluginbase/messages/DefaultMessageProvider.java:61-87 | a missing or unreadable file starts empty; each registered key ends as its own step leaves it, from the tree as loaded |
| CoreMessageProvider.LoadKeepsWrongCount | pluginbase-core/messages/src/main/java/pluginbase/messages/DefaultMessageProvider.java:75-83 | as written, a file entry `no arguments` for a message expecting one `%s` survives loading |
| CoreMessageProvider.LoadFixedCounts | pluginbase-core/messages/src/main/java/pluginbase/messages/DefaultMessageProvider.java:79-83 | with the count check moved out of the `isVirtual` guard, every registered leaf holds as many `%s` as its message expects |
| CoreMessageProvider.Prune | pluginbase-core/messages/src/main/java/pluginbase/messages/DefaultMessageProvider.java:48-58 | a path survives exactly when no unregistered root child lies at or above it, and survivors keep their text |
| CoreMessageProvider.PruneKeeps | pluginbase-core/messages/src/main/java/pluginbase/messages/DefaultMessageProvider.java:48-58 | with no children nothing is removed, and a registered leaf under registered children only is never removed |
| CoreMessageProvider.KeyString | pluginbase-core/messages/src/main/java/pluginbase/messages/DefaultMessageProvider.java:92 | the key's text is bracketed |
| CoreMessageProvider.GetMessage | pluginbase-core/messages/src/main/java/pluginbase/messages/DefaultMessageProvider.java:89-97 | a key with no node gives its bracketed text, a leaf gives its text, and only an interior node gives none |
| CoreMessageProvider.FormatMessage | pluginbase-core/messages/src/main/java/pluginbase/messages/DefaultMessageProvider.java:115-125 | the formatter's result, or the message unchanged when the formatter rejects it |
| CoreMessageProvider.GetLocalizedMessage | pluginbase-core/messages/src/main/java/pluginbase/messages/DefaultMessageProvider.java:99-113 | a message without a key formats its own default; a key with no node formats the bracketed key; a leaf's text is formatted; the result is absent exactly for a key naming an interior node, whose text is null |
| CommandTrees.LowerAll | commands/src/main/java/pluginbase/command/CommandTree.java:65 | the same number of tokens, each lower-cased |
| CommandTrees.RemoveInitialArg | commands/src/main/java/pluginbase/command/CommandTree.java:53-57 | fails exactly on the empty array (a negative array size); otherwise the first token followed by the result is the input |
| CommandTrees.RegisterKeysForArgs | commands/src/main/java/pluginbase/command/CommandTree.java:34-47 | fails exactly on an empty path; otherwise the path becomes a command key and each proper non-empty prefix a sub-tree, nothing else added |
| CommandTrees.RegisterKeysForAlias | commands/src/main/java/pluginbase/command/CommandTree.java:29-32 | fails exactly when the alias splits into no tokens (only spaces) |
| CommandTrees.RegisterKeysForAliasFixed | commands/src/main/java/pluginbase/command/CommandTree.java:24-32 | the corrected registration, storing the tokens lower-cased as the lookup expects; fails in the same cases |
| CommandTrees.Depth | commands/src/main/java/pluginbase/command/CommandTree.java:63-71 | the walk consumes at least one argument when there is one, and never more than there are |
| CommandTrees.JoinArgsForKnownCommands | commands/src/main/java/pluginbase/command/CommandTree.java:59-82 | the loop, with its invariants, computes the walk's join of a known command name and the remaining arguments |
| CommandTrees.JoinRegistered | commands/src/main/java/pluginbase/command/CommandTree.java:59-82 | typed arguments that lower-case to a registered lower-case path, with no longer path below it, become the command's name followed by the remaining arguments |
| CommandTrees.DepthReaches | commands/src/main/java/pluginbase/command/CommandTree.java:63-71 | the walk over a registered path goes through its prefixes and stops exactly at its end |
| CommandTrees.UpperCaseAliasUnmatched | commands/src/main/java/pluginbase/command/CommandTree.java:38-43 | as written, the alias `Foo`, typed exactly as registered, is not joined: the arguments come back unchanged |
| CommandTrees.UpperCaseAliasFixed | commands/src/main/java/pluginbase/command/CommandTree.java:65-66 | with tokens stored lower-cased, `Foo` typed as registered is joined into the name `foo` |
| CommandTrees.JoinRegisteredFixed | commands/src/main/java/pluginbase/command/CommandTree.java:59-82 | with the correction, typing an alias's tokens in any case joins them into its lower-cased name followed by the remaining arguments |
| CommandTrees.GetTreeAt | commands/src/main/java/pluginbase/command/CommandTree.java:84-91 | a sub-tree found is the one at the lower-cased tokens of the path |
| CommandTrees.Walk | commands/src/main/java/pluginbase/command/CommandTree.java:87-89 | the walk finds a sub-tree exactly when every prefix of the remaining path is a sub-tree |
| CommandContexts.QuoteScan | pluginbase-core/commands/src/main/java/pluginbase/command/CommandContext.java:82-93 | a closing token found lies at or after the scan position and inside the array |
| CommandContexts.MergeQuotes | pluginbase-core/commands/src/main/java/pluginbase/command/CommandContext.java:64-107 | every merged token is non-empty, and there are no more merged tokens than input tokens |
| CommandContexts.FlagChars | pluginbase-core/commands/src/main/java/pluginbase/command/CommandContext.java:135-152 | a flag token never touches the positional arguments or the command; flags are only added; each new value flag consumes exactly one following argument; a new boolean flag is a letter of the token that is not a value flag |
| CommandContexts.ParseArgs | pluginbase-core/commands/src/main/java/pluginbase/command/CommandContext.java:114-153 | the command is kept; positional arguments are only appended and, as written, none of them looks like a flag; arguments and values together consume no more tokens than remain; boolean flags are letters outside the value-flag set |
| CommandContexts.NewContext | pluginbase-core/commands/src/main/java/pluginbase/command/CommandContext.java:57-154 | an empty array fails; otherwise the command is the first token, every positional argument is non-empty and not flag-shaped, fewer arguments and values result than tokens were given, and boolean flags are letters outside the value-flag set |
| CommandContexts.ParsedFromList | pluginbase-core/commands/src/main/java/pluginbase/command/CommandContext.java:114-123 | every positional argument is one of the merged tokens |
| CommandContexts.NewContextFixed | pluginbase-core/commands/src/main/java/pluginbase/command/CommandContext.java:57-154 | the corrected constructor still fails exactly on an empty array's missing command and keeps the command |
| CommandContexts.FromString | pluginbase-core/commands/src/main/java/pluginbase/command/CommandContext.java:40-50 | a line parses into a context whose command is its first space-separated token |
| CommandContexts.NonEmpty | pluginbase-core/commands/src/main/java/pluginbase/command/CommandContext.java:69-71 | the non-empty tokens are no more than the tokens |
| CommandContexts.MergeStep | pluginbase-core/commands/src/main/java/pluginbase/command/CommandContext.java:67-107 | a non-empty token that opens no quote is kept as it is |
| CommandContexts.MergePlain | pluginbase-core/commands/src/main/java/pluginbase/command/CommandContext.java:64-107 | tokens without quotes merge to the non-empty ones, in order |
| CommandContexts.ParsePlain | pluginbase-core/commands/src/main/java/pluginbase/command/CommandContext.java:114-123 | tokens that are not flags all become positional arguments, in order |
| CommandContexts.NonEmptyPlain | pluginbase-core/commands/src/main/java/pluginbase/command/CommandContext.java:119 | dropping empty tokens from plain ones leaves no flag-shaped token |
| CommandContexts.PlainArguments | pluginbase-core/commands/src/main/java/pluginbase/command/CommandContext.java:57-154 | a line without quotes or flags parses to the command, the non-empty tokens after it in order, and no flags |
| CommandContexts.QuotedRun | pluginbase-core/commands/src/main/java/pluginbase/command/CommandContext.java:75-98 | `say "a b"` across two tokens gives the single argument `a b` |
| CommandContexts.ValueFlagTaken | pluginbase-core/commands/src/main/java/pluginbase/command/CommandContext.java:138-148 | `-v x` with `v` a value flag stores `x` as its value and leaves no positional argument |
| CommandContexts.ValueFlagTwice | pluginbase-core/commands/src/main/java/pluginbase/command/CommandContext.java:139-141 | a value flag given twice fails with the already-given error |
| CommandContexts.ValueFlagMissing | pluginbase-core/commands/src/main/java/pluginbase/command/CommandContext.java:143-145 | a value flag with nothing after it fails with the missing-value error |
| CommandContexts.BooleanFlags | pluginbase-core/commands/src/main/java/pluginbase/command/CommandContext.java:149-151 | `-ab` sets the boolean flags `a` and `b` |
| CommandContexts.EmptyTokenInQuotedRunFails | pluginbase-core/commands/src/main/java/pluginbase/command/CommandContext.java:84 | as written, an empty token inside a quoted run (two spaces in a quoted line) fails the whole parse by reading index -1 |
| CommandContexts.EmptyTokenInQuotedRunFixed | pluginbase-core/commands/src/main/java/pluginbase/command/CommandContext.java:84-91 | corrected, the empty token contributes its separating space: `"a  b"` gives `a  b` |
| CommandContexts.TerminatorIgnored | pluginbase-core/commands/src/main/java/pluginbase/command/CommandContext.java:119-132 | as written, `--` does not match the flag pattern, so it is kept as an argument and a flag after it is still parsed |
| CommandContexts.TerminatorHonoured | pluginbase-core/commands/src/main/java/pluginbase/command/CommandContext.java:125-132 | corrected, every token after `--` is positional and no flag is set |
| CommandContexts.GetString | pluginbase-core/commands/src/main/java/pluginbase/command/CommandContext.java:182-184 | succeeds exactly for an index inside the arguments, with that argument |
| CommandContexts.GetStringOr | pluginbase-core/commands/src/main/java/pluginbase/command/CommandContext.java:193-195 | the default at or past the end; below it, as `getString`, so a negative index still fails |
| CommandContexts.GetIntegerOr | pluginbase-core/commands/src/main/java/pluginbase/command/CommandContext.java:217-219 | the default past the end; otherwise the argument read as an integer |
| CommandContexts.GetFlagOr | pluginbase-core/commands/src/main/java/pluginbase/command/CommandContext.java:314-317 | the flag's value when it was given one, otherwise the default |
| CommandContexts.AccessorsAgree | pluginbase-core/commands/src/main/java/pluginbase/command/CommandContext.java:171-173 | the accessors agree: an index is readable exactly below the argument count; a flag with a value is set and yields it; an unset flag yields the default; the command matches itself in lower case |
| CommandHandlers.FlagSetsDecls | pluginbase-core/commands/src/main/java/pluginbase/command/CommandHandler.java:279-287 | the flag-specification loop collects the letters of the declarations it reads, and the value flags are exactly those followed by `:` |
| CommandHandlers.ParseFlagSpec | pluginbase-core/commands/src/main/java/pluginbase/command/CommandHandler.java:277-287 | the allowed and value-flag sets are those of the specification's declarations |
| CommandHandlers.DeclaredSpec | pluginbase-core/commands/src/main/java/pluginbase/command/CommandHandler.java:279-287 | for a specification written from declarations, the value flags are the declared value flags, and the allowed set is the plain flags plus `:` whenever a value flag is declared (the value-flag letters themselves are not allowed) |
| CommandHandlers.CheckArgs | pluginbase-core/commands/src/main/java/pluginbase/command/CommandHandler.java:289-301 | no error exactly when the argument count is within the bounds (-1 meaning no maximum); too few is reported first, then too many, then the boolean flags outside the allowed set when the command does not accept any flag |
| CommandHandlers.CheckCommandLine | pluginbase-core/commands/src/main/java/pluginbase/command/CommandHandler.java:277-301 | a line that passes parses with the specification's value flags, has an argument count within the bounds, and, unless any flag is accepted, sets only allowed boolean flags |
| CommandHandlers.DeclaredFlagsPass | pluginbase-core/commands/src/main/java/pluginbase/command/CommandHandler.java:277-301 | a line within the bounds whose boolean flags are all declared plain flags passes the checks |
| CommandHandlers.AssertNotAlreadyRegistered | pluginbase-core/commands/src/main/java/pluginbase/command/CommandHandler.java:155-162 | no error exactly when no alias is taken; the error names an alias of the list |
| CommandHandlers.DirectoryAliases | pluginbase-core/commands/src/main/java/pluginbase/command/CommandHandler.java:129-138 | the directory aliases are the first k space-separated tokens joined by spaces, for each k below the number of tokens |
| CommandHandlers.DirectoryAliasPrefix | pluginbase-core/commands/src/main/java/pluginbase/command/CommandHandler.java:131-138 | every directory alias is a proper prefix of the alias ending just before a space |
| CommandHandlers.RegisterDirectories | pluginbase-core/commands/src/main/java/pluginbase/command/CommandHandler.java:139-145 | directory aliases are added first-wins: taken aliases keep their class, new ones become directories, and the list reported holds exactly the new ones, without repeats |
| CommandHandlers.RegisterRootCommands | pluginbase-core/commands/src/main/java/pluginbase/command/CommandHandler.java:125-153 | after registration the directories above every alias are present, previous entries are untouched, and the reported list is exactly the newly added directories |
| CommandHandlers.RegisterCommand | pluginbase-core/commands/src/main/java/pluginbase/command/CommandHandler.java:99-121 | refused with `AlreadyRegistered` when an alias is taken; otherwise fails exactly when the server accepts and an alias, or a new directory above one, is made of spaces only; a rejected server registration changes nothing; on success every alias is bound to the class, no previous entry is lost, the tree's command keys grow by exactly the paths of the new entries, and no sub-tree is lost |
| CommandHandlers.BindAliases | pluginbase-core/commands/src/main/java/pluginbase/command/CommandHandler.java:104-153 | for free aliases: fails exactly when an alias or a new directory is made of spaces only; otherwise binds the aliases, keeps previous entries, and adds to the tree the key paths of exactly the new entries |
| CommandHandlers.ConfigureKeys | pluginbase-core/commands/src/main/java/pluginbase/command/CommandHandler.java:109-165 | configuring keys for a list of aliases fails exactly when one of them is made of spaces only, naming such an alias; otherwise the command keys grow by the aliases' token paths and no sub-tree is lost |
| CommandHandlers.SpacesAliasRefused | pluginbase-core/commands/src/main/java/pluginbase/command/CommandHandler.java:109-165 | registering an alias of two spaces fails at its key configuration |
| CommandHandlers.BindAll | pluginbase-core/commands/src/main/java/pluginbase/command/CommandHandler.java:108-111 | every alias is bound to the class, and entries for other names are untouched |
| CommandHandlers.TwoWordsDirectory | pluginbase-core/commands/src/main/java/pluginbase/command/CommandHandler.java:129-138 | two words without spaces, joined by one space, have the first word as their only directory alias |
| CommandHandlers.TwoWordDirectory | pluginbase-core/commands/src/main/java/pluginbase/command/CommandHandler.java:129-138 | `mob kill` has the single directory alias `mob` |
| CommandHandlers.TwoWordAlias | pluginbase-core/commands/src/main/java/pluginbase/command/CommandHandler.java:99-121 | registering a command under two words joined by a space, such as `mob kill`, in an empty handler registers the first word as a directory and the alias as the command, and makes both token paths command keys |
| CommandHandlers.TwoWordBound | pluginbase-core/commands/src/main/java/pluginbase/command/CommandHandler.java:104-153 | the same for the accepted registration of any alias with one directory and a two-token path |
| CommandHandlers.TabCompleteDirectory | pluginbase-core/commands/src/main/java/pluginbase/command/CommandHandler.java:459-502 | the fragment is trimmed and lower-cased; the candidates are the sub-directories and usable sub-commands starting with it, plus `confirm` when the built-in confirm applies; they come back sorted and without repeats, except that a single candidate equal to the fragment gives nothing |
| CommandHandlers.CandidatesStart | pluginbase-core/commands/src/main/java/pluginbase/command/CommandHandler.java:467-492 | every completion candidate starts with the fragment |
| CommandInfos.Decls | commands/src/main/java/pluginbase/command/CommandInfo.java:105-117 | reading a flag specification yields at most one declaration per character |
| CommandInfos.Encode | commands/src/main/java/pluginbase/command/CommandInfo.java:105-117 | a specification has at least one character per declaration |
| CommandInfos.EncodeDecls | commands/src/main/java/pluginbase/command/CommandInfo.java:105-117 | every specification is read without loss: writing back what was read gives the same text |
| CommandInfos.DeclsEncode | commands/src/main/java/pluginbase/command/CommandInfo.java:105-117 | declarations whose flags are not `:` are read back exactly as declared |
| CommandInfos.FlagsCons | commands/src/main/java/pluginbase/command/CommandInfo.java:105-117 | the value flags and plain flags of a list are those of its first declaration plus those of the rest |
| CommandBuilders.CloseAt | commands/src/main/java/pluginbase/command/CommandBuilder.java:13-14 | a closing character found lies at or after the start, and no closing character or line terminator comes before it |
| CommandBuilders.MatchAt | commands/src/main/java/pluginbase/command/CommandBuilder.java:13-14 | a lazy match `open .+? close` starting at a position spans at least one character, contains no line terminator, and ends at the first closing character after its first character |
| CommandBuilders.MatchStep | commands/src/main/java/pluginbase/command/CommandBuilder.java:84-94 | at a match, the code inserted before the matched text disappears under stripping once the rest of the pass does, because the matched text starts with the opening character |
| CommandBuilders.MarkupCopyPieces | commands/src/main/java/pluginbase/command/CommandBuilder.java:84-94 | a pass that starts at a character that opens no match copies it |
| CommandBuilders.MarkupStrips | commands/src/main/java/pluginbase/command/CommandBuilder.java:84-94 | a pass that inserts colour codes before every match changes nothing that survives colour stripping, whatever text surrounds it |
| CommandBuilders.ThemeCodes | commands/src/main/java/pluginbase/command/CommandBuilder.java:89 | a theme's text is the code sequence it stands for |
| CommandBuilders.MarkupFromStartStrips | commands/src/main/java/pluginbase/command/CommandBuilder.java:76-115 | a whole pass from the start, followed by any text, strips to the input followed by that text |
| CommandBuilders.ParseUsageStrips | commands/src/main/java/pluginbase/command/CommandBuilder.java:76-115 | the themed usage, stripped of colour, reads as the usage, whatever follows it |
| CommandBuilders.FlagsUsage | commands/src/main/java/pluginbase/command/CommandBuilder.java:63-72 | the flag loop emits one group per declaration read from the specification, in order |
| CommandBuilders.StripDrop | commands/src/main/java/pluginbase/command/CommandBuilder.java:65-71 | a run of codes before a plain character disappears under stripping |
| CommandBuilders.GroupShapeStrips | commands/src/main/java/pluginbase/command/CommandBuilder.java:64-71 | a flag group with its codes, stripped, is the group without them |
| CommandBuilders.GroupTextStrips | commands/src/main/java/pluginbase/command/CommandBuilder.java:64-71 | a flag group with any codes, stripped, is the plain group ` [-c]` or ` [-c {VALUE}]`, whatever surrounds it |
| CommandBuilders.FlagGroupStrips | commands/src/main/java/pluginbase/command/CommandBuilder.java:64-71 | the themed group of a declaration, stripped of colour, is its plain group |
| CommandBuilders.GroupsStrip | commands/src/main/java/pluginbase/command/CommandBuilder.java:63-72 | all themed groups, stripped of colour, are the plain groups |
| CommandBuilders.GatherUsageStrips | commands/src/main/java/pluginbase/command/CommandBuilder.java:57-74 | the usage string stripped of colour is the usage text followed by one plain group per declared flag, in order; when neither contains the section sign it is exactly that |
| CommandBuilders.Group | commands/src/main/java/pluginbase/command/CommandBuilder.java:184-214 | a group of aliases keeps exactly the non-empty ones, each behind its prefix, in order; a group of empty aliases contributes nothing |
| CommandBuilders.BuildUpAliasList | commands/src/main/java/pluginbase/command/CommandBuilder.java:155-182 | the primary alias comes first, as its prefix settings make it; the rest are exactly the non-empty regular, prefixed, directly prefixed and additional aliases, each with its prefix, and never more than the annotation and provider supply |
| CommandBuilders.DefaultAliases | commands/src/main/java/pluginbase/command/CommandInfo.java:51-60 | a command annotated with only its primary alias is registered under the prefixed primary alias alone, because the default alias lists hold one empty alias each |
| StringOrder.LessIrreflexive | pluginbase-core/commands/src/main/java/pluginbase/command/CommandHandler.java:500 | no string sorts before itself |
| StringOrder.LessTotal | pluginbase-core/commands/src/main/java/pluginbase/command/CommandHandler.java:500 | any two different strings are ordered one way or the other |
| StringOrder.LessTransitive | pluginbase-core/commands/src/main/java/pluginbase/command/CommandHandler.java:500 | the order is transitive |
| StringOrder.Insert | pluginbase-core/commands/src/main/java/pluginbase/command/CommandHandler.java:500 | inserting into a sorted list keeps it sorted, adds exactly the element, and lengthens it only when the element is new |
| StringOrder.SortSet | pluginbase-core/commands/src/main/java/pluginbase/command/CommandHandler.java:494-500 | the set's elements as a strictly increasing list of the same size |
| TimeTools.Quot | utilities/src/main/java/com/dumptruckman/minecraft/pluginbase/util/time/TimeTools.java:32-37 | Java's `/` on `long`: the quotient truncated toward zero |
| TimeTools.Rem | utilities/src/main/java/com/dumptruckman/minecraft/pluginbase/util/time/TimeTools.java:32-37 | Java's `%` on `long`: the remainder takes the dividend's sign and recombines with the quotient to the dividend |
| TimeTools.Breakdown | utilities/src/main/java/com/dumptruckman/minecraft/pluginbase/util/time/TimeTools.java:32-37 | the days, hours, minutes and seconds recombine to the input, each below its unit's bound and of the input's sign, and all are zero only for zero |
| TimeTools.ShortForm | utilities/src/main/java/com/dumptruckman/minecraft/pluginbase/util/time/TimeTools.java:28-52 | zero is `0s`; the text never starts or ends with a blank |
| TimeTools.ToShortForm | utilities/src/main/java/com/dumptruckman/minecraft/pluginbase/util/time/TimeTools.java:28-52 | `toShortForm` as written agrees with the corrected form for every amount under a day, so the day-segment error is the only difference |
| TimeTools.ToLongForm | utilities/src/main/java/com/dumptruckman/minecraft/pluginbase/util/time/TimeTools.java:63-107 | zero is `0 seconds`; the text never starts or ends with a blank |
| LongForms.LongFormWords | utilities/src/main/java/com/dumptruckman/minecraft/pluginbase/util/time/TimeTools.java:63-107 | for a positive amount, the long form names each non-zero part by its number, a space and its unit word, singular for one and plural above one, separated by single spaces and with no zero part named |
| LongForms.SpokenEmpty | utilities/src/main/java/com/dumptruckman/minecraft/pluginbase/util/time/TimeTools.java:63-107 | the words are empty exactly when every part is zero |
| LongForms.SpokenEnds | utilities/src/main/java/com/dumptruckman/minecraft/pluginbase/util/time/TimeTools.java:63-107 | non-empty words start with a part's number and end in a letter of a unit word |
| LongForms.SpokenMarkFree | utilities/src/main/java/com/dumptruckman/minecraft/pluginbase/util/time/TimeTools.java:203-272 | the words of the smaller units never hold a letter that marks a larger unit, so the parser does not see that unit again |
| LongForms.StageWord | utilities/src/main/java/com/dumptruckman/minecraft/pluginbase/util/time/TimeTools.java:207-262 | one stage of `fromLongForm` reads the number in front of its unit word, singular or plural, and passes on the text after the word when a later unit word follows |
| LongForms.ScanSpoken | utilities/src/main/java/com/dumptruckman/minecraft/pluginbase/util/time/TimeTools.java:203-272 | the stages over the words of parts from any unit on read back the weighted sum of those parts, and count as read exactly when one of them is non-zero |
| LongForms.SpokenReadsBack | utilities/src/main/java/com/dumptruckman/minecraft/pluginbase/util/time/TimeTools.java:203-272 | the words of any `int` parts, not all zero, within the clock bounds, parse back to days times 86400 plus hours times 3600 plus minutes times 60 plus seconds |
| LongForms.PartsReadBack | utilities/src/main/java/com/dumptruckman/minecraft/pluginbase/util/time/TimeTools.java:203-272 | the words of the breakdown of a positive amount parse back to the amount its parts make up |
| LongForms.LongFormRoundTrip | utilities/src/main/java/com/dumptruckman/minecraft/pluginbase/util/time/TimeTools.java:63-272 | `fromLongForm(toLongForm(n)) == n` for every non-negative amount whose day count fits an `int` |
| LongForms.ZeroLongRoundTrip | utilities/src/main/java/com/dumptruckman/minecraft/pluginbase/util/time/TimeTools.java:64-66 | zero prints as `0 seconds`, which parses back to zero |
| TimeTools.LongFormSeconds | utilities/src/main/java/com/dumptruckman/minecraft/pluginbase/util/time/TimeTools.java:98-106 | under a minute the long form is the number and ` second` or ` seconds` |
| TimeTools.FirstKey | utilities/src/main/java/com/dumptruckman/minecraft/pluginbase/util/time/TimeTools.java:206-222 | the first unit name the text contains, and none only when it contains none |
| TimeTools.Stage | utilities/src/main/java/com/dumptruckman/minecraft/pluginbase/util/time/TimeTools.java:137-145 | a stage whose unit the text does not name passes the text on unread; a value read fits an `int` |
| TimeTools.ScanUnreadZero | utilities/src/main/java/com/dumptruckman/minecraft/pluginbase/util/time/TimeTools.java:134-169 | a reading no stage contributed a number to totals 0 |
| TimeTools.ScanBounds | utilities/src/main/java/com/dumptruckman/minecraft/pluginbase/util/time/TimeTools.java:134-169 | the total stays within the sum of the unit weights times the `int` range |
| TimeTools.FromForm | utilities/src/main/java/com/dumptruckman/minecraft/pluginbase/util/time/TimeTools.java:134-174 | a parsed amount lies within the unit weights' sum times the `int` range |
| TimeTools.FormRead | utilities/src/main/java/com/dumptruckman/minecraft/pluginbase/util/time/TimeTools.java:170-173 | when some stage read a number, the parser returns the weighted total the stages read |
| TimeTools.FormUnread | utilities/src/main/java/com/dumptruckman/minecraft/pluginbase/util/time/TimeTools.java:170-172 | when no stage read a number, the parser throws its `ParseException` |
| TimeTools.ParsedFitsLong | utilities/src/main/java/com/dumptruckman/minecraft/pluginbase/util/time/TimeTools.java:173 | every parsed total, short or long form, fits a `long` |
| TimeTools.ScanNoKeys | utilities/src/main/java/com/dumptruckman/minecraft/pluginbase/util/time/TimeTools.java:170-172 | a text naming no unit reads nothing |
| TimeTools.RenderReadsBack | utilities/src/main/java/com/dumptruckman/minecraft/pluginbase/util/time/TimeTools.java:134-174 | any non-zero segments written in unit order are read back as their weighted sum |
| TimeTools.ShortFormRoundTrip | utilities/src/main/java/com/dumptruckman/minecraft/pluginbase/util/time/TimeTools.java:28-52 | with the day segment corrected, parsing the short form of any number of seconds whose day count fits an `int` gives that number back |
| TimeTools.ZeroRoundTrip | utilities/src/main/java/com/dumptruckman/minecraft/pluginbase/util/time/TimeTools.java:29-31 | `0s` is read back as zero |
| TimeTools.LongFormOneSecond | utilities/src/main/java/com/dumptruckman/minecraft/pluginbase/util/time/TimeTools.java:257-267 | `1 second` is read as one second |
| TimeTools.ShortFormPrintsHourForDay | utilities/src/main/java/com/dumptruckman/minecraft/pluginbase/util/time/TimeTools.java:39-41 | as written, one day prints as `0h`; corrected, as `1d` |
| TimeTools.HoursUnreadAsWritten | utilities/src/main/java/com/dumptruckman/minecraft/pluginbase/util/time/TimeTools.java:148 | as written, a one-digit hour such as `2h` is read from the split at `d`, which keeps the `h`, so it is rejected |
| TimeTools.HoursReadFixed | utilities/src/main/java/com/dumptruckman/minecraft/pluginbase/util/time/TimeTools.java:146-150 | corrected to split at `h`, `2h` reads as 7200 seconds |
| TimeTools.ShortFormHoursUnread | utilities/src/main/java/com/dumptruckman/minecraft/pluginbase/util/time/TimeTools.java:146-150 | `2h` fails as written and reads as 7200 seconds when corrected |
| TimeTools.ShortFormRoundTripBroken | utilities/src/main/java/com/dumptruckman/minecraft/pluginbase/util/time/TimeTools.java:28-52 | as written, one hour prints as `1h`, and that text cannot be parsed back |
| Durations.WrapLong | pluginbase-core/utilities/src/main/java/pluginbase/util/time/Duration.java:62 | a `long` multiplication result: in range, unchanged when it fits, otherwise reduced modulo 2^64 |
| Durations.ValueOfMillis | pluginbase-core/utilities/src/main/java/pluginbase/util/time/Duration.java:72-74 | the duration holds the given milliseconds |
| Durations.FromSeconds | pluginbase-core/utilities/src/main/java/pluginbase/util/time/Duration.java:83-85 | the seconds times 1000 whenever that fits a `long` |
| Durations.AsSeconds | pluginbase-core/utilities/src/main/java/pluginbase/util/time/Duration.java:102-104 | the whole seconds, truncated toward zero |
| Durations.AsSimpleString | pluginbase-core/utilities/src/main/java/pluginbase/util/time/Duration.java:135-137 | under one second in either direction the text is `0s`; it never starts or ends with a blank |
| Durations.AsVerboseString | pluginbase-core/utilities/src/main/java/pluginbase/util/time/Duration.java:123-125 | under one second the text is `0 seconds`; it never starts or ends with a blank |
| Durations.AsSimpleStringFixed | pluginbase-core/utilities/src/main/java/pluginbase/util/time/Duration.java:135-137 | the corrected variant of the short text, with the day segment fixed: `0s` under one second |
| Durations.ValueOf | pluginbase-core/utilities/src/main/java/pluginbase/util/time/Duration.java:44-63 | a parsed duration is a non-negative count of seconds times 1000 in `long` arithmetic; an index failure can only come from a form parser that threw one |
| Durations.ValueOfNegative | pluginbase-core/utilities/src/main/java/pluginbase/util/time/Duration.java:44-63 | a negative number of seconds is refused with a format error, because the time read is below zero |
| Durations.ValueOfFixed | pluginbase-core/utilities/src/main/java/pluginbase/util/time/Duration.java:44-63 | with each form's failure read as "not this form", the only failure is the invalid-format one |
| Durations.FromSecondsRoundTrip | pluginbase-core/utilities/src/main/java/pluginbase/util/time/Duration.java:83-104 | seconds that fit after multiplying by 1000 come back from `asSeconds` |
| Durations.FromSecondsOverflow | pluginbase-core/utilities/src/main/java/pluginbase/util/time/Duration.java:84 | the largest `long` number of seconds overflows and does not come back |
| Durations.ValueOfSeconds | pluginbase-core/utilities/src/main/java/pluginbase/util/time/Duration.java:49-53 | a plain non-negative number of seconds parses, as written and corrected, to that many seconds |
| Durations.NoUnitLetters | pluginbase-core/utilities/src/main/java/pluginbase/util/time/Duration.java:47-48 | a text of digits and minus signs is not a short form |
| Durations.SimpleStringRoundTrip | pluginbase-core/utilities/src/main/java/pluginbase/util/time/Duration.java:44-63 | with both corrections, the simple text of a whole number of seconds parses back to the same duration |
| Durations.ValueOfLongFormCrashes | pluginbase-core/utilities/src/main/java/pluginbase/util/time/Duration.java:44-48 | as written, `1 second` contains `d`, so the short-form parser's day stage runs; because the text also contains `s`, it reads the second piece of the split at `d`, but that split leaves the one piece `1 secon`, and reading the missing piece raises an index error that is not caught, so the long form is never tried |
| Durations.ValueOfFixedReadsLongForm | pluginbase-core/utilities/src/main/java/pluginbase/util/time/Duration.java:54-58 | with the failure caught, `1 second` reads as one second |
| YamlComments.Spaces | file-comments/src/main/java/pluginbase/comments/yaml/YamlCommentMap.java:32-38 | exactly the given number of spaces |
| YamlComments.NewCommentMap | file-comments/src/main/java/pluginbase/comments/yaml/YamlCommentMap.java:23-30 | a new map indents by the given number of spaces, keeps the separator, and holds no comments |
| YamlComments.LeadingWhitespaceLength | file-comments/src/main/java/pluginbase/comments/yaml/YamlCommentMap.java:55-63 | a path's indentation is one indent per separator in the path, all spaces |
| YamlComments.PrepareLine | file-comments/src/main/java/pluginbase/comments/yaml/YamlCommentMap.java:82-90 | a prepared line is never empty |
| YamlComments.PrepareLineShape | file-comments/src/main/java/pluginbase/comments/yaml/YamlCommentMap.java:82-103 | an empty line becomes one space; any other line is the indentation, `# ` unless it already starts with `#`, and the line, so it grows by exactly the indentation iff it starts with `#` |
| YamlComments.Prepared | file-comments/src/main/java/pluginbase/comments/yaml/YamlCommentMap.java:67-70 | one prepared line per comment line, in order |
| YamlComments.MergeIsJoin | file-comments/src/main/java/pluginbase/comments/yaml/YamlCommentMap.java:65-80 | the merge loop yields the prepared lines joined by the line separator, with none at the end |
| YamlComments.SetComments | file-comments/src/main/java/pluginbase/comments/yaml/YamlCommentMap.java:48-53 | the path now has comments; every other path keeps its own; the indentation and separator are unchanged |
| YamlComments.GetComments | file-comments/src/main/java/pluginbase/comments/yaml/YamlCommentMap.java:113-119 | a path without comments gives "" |
| YamlComments.SetThenGet | file-comments/src/main/java/pluginbase/comments/yaml/YamlCommentMap.java:48-53 | what is set for a path is read back for it as the joined prepared lines indented for the path; other paths read as before; the map now has comments |
| YamlComments.SetOverwrites | file-comments/src/main/java/pluginbase/comments/yaml/YamlCommentMap.java:52 | setting a path twice keeps only the second set of lines |
| YamlComments.MergeSplits | file-comments/src/main/java/pluginbase/comments/yaml/YamlCommentMap.java:65-80 | splitting the merged comments of single-line comments at a one-character separator gives the prepared lines back |
| YamlComments.PreparedFree | file-comments/src/main/java/pluginbase/comments/yaml/YamlCommentMap.java:82-103 | preparing a line adds no character other than spaces and `#` |
| YamlInstrumenter.CreateInstrumenter | file-comments/src/main/java/com/dumptruckman/minecraft/pluginbase/comments/yaml/YamlFileCommentInstrumenter.java:42-44 | a new instrumenter with the given indentation and the `.` separator has no comments |
| YamlInstrumenter.SetCommentsForPath | file-comments/src/main/java/com/dumptruckman/minecraft/pluginbase/comments/yaml/YamlFileCommentInstrumenter.java:59-61 | comments set through the instrumenter are what its map returns for the path |
| YamlInstrumenter.IndexOf | file-comments/src/main/java/com/dumptruckman/minecraft/pluginbase/comments/yaml/YamlFileCommentInstrumenter.java:151 | the first position where the text occurs, and none exactly when it does not occur |
| YamlInstrumenter.NodeName | file-comments/src/main/java/com/dumptruckman/minecraft/pluginbase/comments/yaml/YamlFileCommentInstrumenter.java:143-156 | the node's name starts the trimmed line and is followed by `: ` when the line holds one, otherwise by the final `:` |
| YamlInstrumenter.LeadingSpaces | file-comments/src/main/java/com/dumptruckman/minecraft/pluginbase/comments/yaml/YamlFileCommentInstrumenter.java:163-173 | the count of spaces before the first other character |
| YamlInstrumenter.NodeDepth | file-comments/src/main/java/com/dumptruckman/minecraft/pluginbase/comments/yaml/YamlFileCommentInstrumenter.java:158-161 | the whole indentation levels in the leading spaces |
| YamlInstrumenter.RemoveFinal | file-comments/src/main/java/com/dumptruckman/minecraft/pluginbase/comments/yaml/YamlFileCommentInstrumenter.java:181-188 | a path without a separator is cleared; otherwise it is cut just after its last separator |
| YamlInstrumenter.Decorate | file-comments/src/main/java/com/dumptruckman/minecraft/pluginbase/comments/yaml/YamlFileCommentInstrumenter.java:93-105 | the line and a separator always end the output, and the comments come first exactly when there are any |
| YamlInstrumenter.SaveComments | file-comments/src/main/java/com/dumptruckman/minecraft/pluginbase/comments/yaml/YamlFileCommentInstrumenter.java:68-74 | without comments the file is left as it is; otherwise its contents are instrumented |
| YamlInstrumenter.NextStack | file-comments/src/main/java/com/dumptruckman/minecraft/pluginbase/comments/yaml/YamlFileCommentInstrumenter.java:122-141 | a node at depth d keeps the first d names before it and adds its own |
| YamlInstrumenter.DropLevelsJoin | file-comments/src/main/java/com/dumptruckman/minecraft/pluginbase/comments/yaml/YamlFileCommentInstrumenter.java:175-179 | removing k levels from a path of valid names drops its last k names |
| YamlInstrumenter.AdvanceAgrees | file-comments/src/main/java/com/dumptruckman/minecraft/pluginbase/comments/yaml/YamlFileCommentInstrumenter.java:122-141 | tracking the path a node at most one level deeper than the one before gets its ancestors' names and its own |
| YamlInstrumenter.DropThenReplace | file-comments/src/main/java/com/dumptruckman/minecraft/pluginbase/comments/yaml/YamlFileCommentInstrumenter.java:131-133 | a shallower node drops the levels in between, then replaces its sibling's name |
| YamlInstrumenter.InstrumentMatchesExpected | file-comments/src/main/java/com/dumptruckman/minecraft/pluginbase/comments/yaml/YamlFileCommentInstrumenter.java:82-85 | on every well-indented document each node gets the comments of its full dotted path above it and every line is kept, in order |
| YamlInstrumenter.AddCommentsMatchesExpected | file-comments/src/main/java/com/dumptruckman/minecraft/pluginbase/comments/yaml/YamlFileCommentInstrumenter.java:76-87 | the whole text, split at the line separator and instrumented from an empty path, is the document as intended |
| YamlInstrumenter.NoCommentsEcho | file-comments/src/main/java/com/dumptruckman/minecraft/pluginbase/comments/yaml/YamlFileCommentInstrumenter.java:93-105 | with no comments each line comes out followed by the separator |
| YamlInstrumenter.NoCommentsIdentity | file-comments/src/main/java/com/dumptruckman/minecraft/pluginbase/comments/yaml/YamlFileCommentInstrumenter.java:76-105 | a document of lines ended by a one-character separator, with no blank last line, comes out unchanged when there are no comments |
| YamlInstrumenter.SplitLines | file-comments/src/main/java/com/dumptruckman/minecraft/pluginbase/comments/yaml/YamlFileCommentInstrumenter.java:89-91 | such a document splits back into its lines |
| YamlInstrumenter.IndentedFirstNodeFails | file-comments/src/main/java/com/dumptruckman/minecraft/pluginbase/comments/yaml/YamlFileCommentInstrumenter.java:124-133 | a first node indented one level, a child, then a node at the margin removes more levels than the path has and stops with an index exception |
| PluginSettings.NewLocale | pluginbase-core/plugin/src/main/java/pluginbase/plugin/Settings.java:122-136 | a new locale keeps the lengths of language and country and the variant as given |
| PluginSettings.NewSettings | pluginbase-core/plugin/src/main/java/pluginbase/plugin/Settings.java:24-34 | new settings read debug level 0, are on their first run, and hold the default locale |
| PluginSettings.ValidateDebugRange | pluginbase-core/plugin/src/main/java/pluginbase/plugin/Settings.java:72-80 | the validator accepts exactly the levels 0 to 3 and passes them through; no new value keeps the old one, or 0 |
| PluginSettings.SetThenGetDebugLevel | pluginbase-core/plugin/src/main/java/pluginbase/plugin/Settings.java:42-50 | a level from 0 to 3 is stored and read back with nothing else changed; any other level is refused |
| PluginSettings.NullLocale | pluginbase-core/plugin/src/main/java/pluginbase/plugin/Settings.java:116-124 | no locale is written as the default locale's text, and no text is read as the default locale |
| PluginSettings.SplitUnderscore | pluginbase-core/plugin/src/main/java/pluginbase/plugin/Settings.java:122-136 | joined pieces without `_`, the last not empty, split back into the pieces |
| PluginSettings.LocaleRoundTrip | pluginbase-core/plugin/src/main/java/pluginbase/plugin/Settings.java:116-136 | a locale the constructor could make, with no `_` in its parts and not a variant alone, is written and read back unchanged |
| PluginSettings.VariantAloneLost | pluginbase-core/plugin/src/main/java/pluginbase/plugin/Settings.java:116-136 | a locale with only a variant is written as "" and read back without its variant |
| PluginSettings.FourPartsIsLanguage | pluginbase-core/plugin/src/main/java/pluginbase/plugin/Settings.java:122-136 | a text of four `_`-separated pieces is taken whole, lower-cased, as the language |
| PluginLogging.NewLogger | pluginbase-core/logging/src/main/java/pluginbase/logging/PluginLogger.java:39-43 | a new logger has debugging off, no subscriptions, and a valid level |
| PluginLogging.Shutdown | pluginbase-core/logging/src/main/java/pluginbase/logging/PluginLogger.java:242-244 | shutting down turns debugging off and changes nothing else |
| PluginLogging.LogRouting | pluginbase-core/logging/src/main/java/pluginbase/logging/PluginLogger.java:344-361 | a message is shown exactly when its level is a debug level within the debug level, CONFIG while CONFIG is shown, or any other level; debug messages come out as INFO with the debug prefix, CONFIG as INFO with the name prefix, others at their level with the name prefix |
| PluginLogging.DebugOffHidesDebug | pluginbase-core/logging/src/main/java/pluginbase/logging/PluginLogger.java:344-350 | with debugging off no debug message is shown |
| PluginLogging.LogMonotone | pluginbase-core/logging/src/main/java/pluginbase/logging/PluginLogger.java:344-361 | raising the debug level never hides a message that was shown |
| PluginLogging.SetDebugLevelBounds | pluginbase-core/logging/src/main/java/pluginbase/logging/PluginLogger.java:259-264 | the level is accepted exactly from 0 to 3, and then it is the only change |
| PluginLogging.PrefixedMessageShape | pluginbase-core/logging/src/main/java/pluginbase/logging/PluginLogger.java:300-307 | the prefixed message is `[`, the name, `] ` and the message, which can be cut back out |
| PluginLogging.DebugStringShape | pluginbase-core/logging/src/main/java/pluginbase/logging/PluginLogger.java:325-330 | the debug string carries the name and the debug suffix in brackets before the message |
| PluginLogging.SubscribeTwice | pluginbase-core/logging/src/main/java/pluginbase/logging/PluginLogger.java:129-137 | a second subscription of the same subscriber is refused and changes nothing |
| PluginLogging.UnsubscribeAbsent | pluginbase-core/logging/src/main/java/pluginbase/logging/PluginLogger.java:139-147 | unsubscribing an absent subscriber is refused and changes nothing |
| PluginLogging.SubscribeUnsubscribe | pluginbase-core/logging/src/main/java/pluginbase/logging/PluginLogger.java:129-147 | subscribing a new subscriber and unsubscribing it gives the logger back, both calls reporting a change |
| PluginLogging.SubscriptionsIndependent | pluginbase-core/logging/src/main/java/pluginbase/logging/PluginLogger.java:129-153 | subscriptions of other subscribers are left alone |
| PluginLogging.BroadcastOfInfo | pluginbase-core/logging/src/test/java/pluginbase/logging/LoggerDebugBroadcastTest.java:50-61 | an INFO record is shown and broadcast as `[Logged to <logger>][INFO]` followed by the prefixed message |
| Perms.BaseNameFromClass | permissions/src/main/java/com/dumptruckman/minecraft/pluginbase/permission/Perm.java:58-76 | the base name is the registered permission name if there is one, else what the class declares, else its simple name |
| Perms.NewPerm | permissions/src/main/java/com/dumptruckman/minecraft/pluginbase/permission/Perm.java:101-115 | the constructor stores the composed name and keeps description, children, default, parents and the specific-only flag as given |
| Perms.ComposedNameShape | permissions/src/main/java/com/dumptruckman/minecraft/pluginbase/permission/Perm.java:105-109 | the stored name is lower-case; with the plugin name it is the lower-cased base, `.` and the lower-cased name |
| Perms.GetNameRefusesSpecificOnly | permissions/src/main/java/com/dumptruckman/minecraft/pluginbase/permission/Perm.java:126-132 | the name is refused exactly for a specific-only permission, and is otherwise the stored name |
| Perms.SpecificIsComposed | permissions/src/main/java/com/dumptruckman/minecraft/pluginbase/permission/Perm.java:144-148 | the name with a specific node is the name the constructor would give `name.specific` |
| Perms.SpecificNameShape | permissions/src/main/java/com/dumptruckman/minecraft/pluginbase/permission/Perm.java:144-148 | the specific name is the permission's name, `.`, then the lower-cased node, and lower-case when the name is |
| Perms.SpecificOnlyChecks | permissions/src/main/java/com/dumptruckman/minecraft/pluginbase/permission/Perm.java:194-196 | checking without a node fails exactly for a specific-only permission and otherwise asks about the permission's name |
| PermFactories.RegisterFactory | pluginbase-core/permissions/src/main/java/pluginbase/permission/PermFactory.java:118-137 | registering a factory marks one as present and changes nothing else |
| PermFactories.NewFactory | pluginbase-core/permissions/src/main/java/pluginbase/permission/PermFactory.java:155-164 | the builder is refused exactly when the class or the name is missing, and otherwise is for that class and name |
| PermFactories.NewFactoryDefaults | pluginbase-core/permissions/src/main/java/pluginbase/permission/PermFactory.java:143-153 | a new builder has no children or parents, the OP default, an empty description, and neither flag |
| PermFactories.ChildGrants | pluginbase-core/permissions/src/main/java/pluginbase/permission/PermFactory.java:196-222 | `child(name)` grants the name exactly as written and leaves every other entry and field alone |
| PermFactories.ParentLowerCased | pluginbase-core/permissions/src/main/java/pluginbase/permission/PermFactory.java:243-269 | a parent is recorded under its lower-cased name, so parent keys stay lower-case and names differing in case name one parent |
| PermFactories.PermReferencesByName | pluginbase-core/permissions/src/main/java/pluginbase/permission/PermFactory.java:185-256 | a child or parent given as a permission goes under that permission's name, and a specific-only permission is refused |
| PermFactories.ParentShortcuts | pluginbase-core/permissions/src/main/java/pluginbase/permission/PermFactory.java:278-290 | `addToAll` and `commandPermission` fail before the class is configured and afterwards add its "all" and "all commands" permissions as granted parents |
| PermFactories.Build | pluginbase-core/permissions/src/main/java/pluginbase/permission/PermFactory.java:93-96 | the built permission carries the builder's children, parents, description, default and specific-only flag |
| PermFactories.BuildName | pluginbase-core/permissions/src/main/java/pluginbase/permission/PermFactory.java:93-96 | the built permission's name is the builder's name lower-cased, after the registered permission name and `.` when the plugin name is used |
| PermFactories.NewPermChecks | pluginbase-core/permissions/src/main/java/pluginbase/permission/PermFactory.java:57-66 | `newPerm` fails without a factory, then without a permission name for the class, both leaving the registry as it was; otherwise the class's parent permissions are configured, and stay configured when the builder is then refused for a missing name; a builder is for the class and name |
| PermFactories.RegistryConsistent | pluginbase-core/permissions/src/main/java/pluginbase/permission/PermFactory.java:41-47 | registering keeps the "all" and "all commands" maps in step, and a registered permission name is read back |
| PermFactories.EnsureParentPermsConfigured | permissions/src/main/java/com/dumptruckman/minecraft/pluginbase/permission/Perm.java:78-83 | configuring adds the class to both maps once, keeps every existing entry, and keeps the maps in step |
| PermFactories.EnsureIdempotent | permissions/src/main/java/com/dumptruckman/minecraft/pluginbase/permission/Perm.java:78-83 | configuring a class a second time changes nothing |
| PermFactories.CommandPermAddsToAll | permissions/src/main/java/com/dumptruckman/minecraft/pluginbase/permission/Perm.java:78-83 | the "all commands" permission has the "all" permission added as its parent the way `addToAll` adds it |
| PermFactories.ParentPermNames | permissions/src/main/java/com/dumptruckman/minecraft/pluginbase/permission/Perm.java:78-83 | with a registered name, the "all" permission is `<name>.*`, the "all commands" one is `<name>.cmd.*` with the former as its one granted parent |
| WordWrapping.CodeText | pluginbase-sponge/messaging-sponge/src/main/java/pluginbase/sponge/messaging/SpongeMessager.java:133-138 | a character naming a colour code appends the section sign and that character |
| WordWrapping.Chunks | pluginbase-sponge/messaging-sponge/src/main/java/pluginbase/sponge/messaging/SpongeMessager.java:142-151 | the pieces join back to the word; every piece but the last is 55 characters cut where the text from it on could still be cut, and the last can no longer be: it is at most 55 long or a line terminator lies among its first 55 characters; a word without line terminators gives pieces of at most 55 |
| WordWrapping.TerminatorKeepsWordWhole | pluginbase-sponge/messaging-sponge/src/main/java/pluginbase/sponge/messaging/SpongeMessager.java:142-151 | a line terminator among a word's first 55 characters leaves the whole word as one piece, however long |
| WordWrapping.Scan | pluginbase-sponge/messaging-sponge/src/main/java/pluginbase/sponge/messaging/SpongeMessager.java:129-171 | the loop fails only on a text whose last character is a section sign |
| WordWrapping.ColourFrom | pluginbase-sponge/messaging-sponge/src/main/java/pluginbase/sponge/messaging/SpongeMessager.java:181-189 | each line after the first keeps its text at its end, and is left unchanged when it already starts with a section sign |
| WordWrapping.Colourise | pluginbase-sponge/messaging-sponge/src/main/java/pluginbase/sponge/messaging/SpongeMessager.java:178-189 | as `ColourFrom` for every line, and the first line starts with a section sign |
| WordWrapping.Finish | pluginbase-sponge/messaging-sponge/src/main/java/pluginbase/sponge/messaging/SpongeMessager.java:173-191 | the lines returned are not empty and the first starts with a section sign |
| WordWrapping.WrapWords | pluginbase-sponge/messaging-sponge/src/main/java/pluginbase/sponge/messaging/SpongeMessager.java:117-191 | only a long or multi-line text can fail; the result has at least one line, and the first line of a wrapped text starts with a section sign |
| WordWrapping.WrapWordsFixed | pluginbase-sponge/messaging-sponge/src/main/java/pluginbase/sponge/messaging/SpongeMessager.java:117-191 | the same for the corrected wrapper |
| WordWrapping.Flush | pluginbase-sponge/messaging-sponge/src/main/java/pluginbase/sponge/messaging/SpongeMessager.java:164-167 | emitting adds the current line to the lines, empties it, and keeps the pending word |
| WordWrapping.Break | pluginbase-sponge/messaging-sponge/src/main/java/pluginbase/sponge/messaging/SpongeMessager.java:140-162 | after a space or newline the pending word has been placed and is empty |
| WordWrapping.NewlineFlushes | pluginbase-sponge/messaging-sponge/src/main/java/pluginbase/sponge/messaging/SpongeMessager.java:164-167 | a newline emits the current line, whatever it holds, keeps the lines before it, and leaves an empty line and word |
| WordWrapping.ShortUnchanged | pluginbase-sponge/messaging-sponge/src/main/java/pluginbase/sponge/messaging/SpongeMessager.java:119-121 | a text within 55 characters and without a newline comes back as its one line |
| WordWrapping.SeparateKeepsLetters | pluginbase-sponge/messaging-sponge/src/main/java/pluginbase/sponge/messaging/SpongeMessager.java:140-167 | a space or newline moves text between the word, the line and the lines without losing or reordering any other character |
| WordWrapping.ScanKeepsLetters | pluginbase-sponge/messaging-sponge/src/main/java/pluginbase/sponge/messaging/SpongeMessager.java:129-171 | over a text without section signs the loop does not fail, and its builders hold every character of the text other than spaces and newlines, in order |
| WordWrapping.ColourInherits | pluginbase-sponge/messaging-sponge/src/main/java/pluginbase/sponge/messaging/SpongeMessager.java:181-189 | each later line is kept when it starts with a code and otherwise gets the colour of the last code of the coloured line before it |
| WordWrapping.FirstLineWhite | pluginbase-sponge/messaging-sponge/src/main/java/pluginbase/sponge/messaging/SpongeMessager.java:178-180 | the first line gets the white code unless it starts with a code |
| WordWrapping.PlainColourFrom | pluginbase-sponge/messaging-sponge/src/main/java/pluginbase/sponge/messaging/SpongeMessager.java:181-189 | lines without codes after a white line all come out white |
| WordWrapping.WrittenLosesPendingWord | pluginbase-sponge/messaging-sponge/src/main/java/pluginbase/sponge/messaging/SpongeMessager.java:129-175 | as written, the collected lines and the word still pending after the loop hold the text's non-blank characters between them |
| WordWrapping.LastWordDropped | pluginbase-sponge/messaging-sponge/src/main/java/pluginbase/sponge/messaging/SpongeMessager.java:129-175 | "a", newline, "b" comes out as the single white line "a"; with a trailing separator it is "a" and "b" |
| WordWrapping.FixedKeepsEveryWord | pluginbase-sponge/messaging-sponge/src/main/java/pluginbase/sponge/messaging/SpongeMessager.java:129-189 | with the last word separated, a long text without codes wraps without error into white lines holding every non-blank character of the text, in order |

## Left out

- File and network I/O: reading and writing language files, YAML files and the debug log file. The model works on their contents.
- `String.format` and `MessageUtil.formatMessage` are a function parameter, with `None` standing for an `IllegalFormatException`. The model does not reimplement format strings.
- Case mapping covers ASCII letters only. Java's `toLowerCase` and `toUpperCase` follow Unicode and the default locale.
- `java.util.Locale` is a plain record of language, country and variant. The legacy ISO code mapping and the script and extension fields are not modelled.
- LongForms.LongFormRoundTrip covers non-negative amounts whose day count fits an `int`. A negative amount prints numbers without unit words, so nothing reads back, and a larger day count overflows `Integer.parseInt`.
- `CommandHandler`: running a located command, building usage text and queued confirmation commands are left out. They call plugin code and the server.
- `CommandTree.getSubCommandSet`, and tab completion outside a directory node, are left out. They only read the tree.
- The `MessageProvider` interface and the default locale are parameters, not objects.
- `DependentField`, which links the settings' debug level to the logger, is left out. The settings and the logger each keep their own level.
- The platform line separator and the logger's `toString` are parameters. Concurrency and thread safety of the logger are not modelled.
- Reflection: a registered custom permission factory is not instantiated. `newUncheckedPerm` always builds the basic factory. A plugin class's static `getPermissionName`, which is looked up by reflection, is a parameter.
- `Perm.verify` and the server-side permission registration are left out. `PermDefault` is a plain enumeration.
- A `Permissible` is a function from permission names to booleans.
- `Perm` comes from the older `com.dumptruckman` package while `PermFactory` comes from `pluginbase.permission`. The model joins them as the newer factory expects.
- `WordWrapping`: the `int` counter of colour characters is unbounded. It cannot overflow for any text that fits in memory.
- Indentation below zero in the YAML instrumenter is not modelled.
- Strings.ParseIntegral accepts ASCII digits only. Java's `Integer.parseInt` also accepts the decimal digits of other scripts, such as `١`.
- CommandContexts.GetIntegerOr inherits that: an argument written in other decimal digits is refused here and read by the source.
- Durations.ValueOf inherits it too: `١s` is refused here and read by the source as one second. The same holds for the time parsers of `TimeTools`.
- CommandHandlers.RegisterCommand returns only the error when key configuration throws. The source keeps the registry entries and tree keys it added before the throw.
- `CommandContext.getLong` and `getDouble` are left out: they parse as `getInteger` does, into a wider or floating-point type. Only the integer and string accessors are modelled.
- MessageRegistry.ContainsMessageKey, MessageRegistry.GetMessage and CoreMessageProvider.Prune look keys up by their contents. The source's map is keyed by `Object[]` arrays, which Java compares by identity (`pluginbase-core/messages/src/main/java/pluginbase/messages/Messages.java:30`). With that lookup, `containsMessageKey` on the fresh array `getPath()` returns is never true, so `prune` would remove every list child of the root. The model gives the content lookup the code evidently intends; `MessageRegistry.IdentityKeyedDuplicates` under Findings shows the identity behaviour.
- CoreMessageProvider.Prune takes the root's list children as a parameter, because the tree is a map from paths to leaves and does not record whether a node is a list or a map. In the source they are `getChildrenList()`, which is empty when the root is a map, as in an ordinary language file. `CoreMessageProvider.PruneKeeps` shows that no list children means nothing is removed.
- CommandHandlers.CheckArgs reports the whole set of unknown boolean flags. The source throws on the first one it meets, in `HashSet` iteration order, and the model does not fix that order.
- StringOrder.Less compares strings by code point. Java's `compareTo` compares UTF-16 units, which gives a different order only for characters outside the Basic Multilingual Plane.
- WordWrapping.WrapWords counts characters. Java counts UTF-16 units, which differ only for characters outside the Basic Multilingual Plane.
- LegacyMessageProvider.FormatFallback translates `&` codes with the Kotlin `ChatColor` of `ChatColors`. The `ChatColor` of the legacy provider's own package is not part of this model, and the Kotlin one stands in for it.

## Findings

| source | as written | input that shows it | evidently intended | confidence | as-written member | corrected member |
|---|---|---|---|---|---|---|
| pluginbase-core/messages/src/main/kotlin/pluginbase/messages/Theme.kt:177-179 | the last character is always appended after the loop, even when the loop already expanded it as a tag | `$` followed by a known tag character, such as `$a` | the tag's colour code alone | not executed | Themes.ParseTagAtEnd | Themes.ParseMessageFixed |
| utilities/src/main/java/com/dumptruckman/minecraft/pluginbase/util/time/TimeTools.java:39-41 | the day part prints the hour count with `h` | 86400 seconds prints `0h` | `1d` | not executed | TimeTools.ShortFormPrintsHourForDay | TimeTools.ShortFormRoundTrip |
| utilities/src/main/java/com/dumptruckman/minecraft/pluginbase/util/time/TimeTools.java:148 | hours are read from the text split at `d` | `2h` is rejected | split at `h`, reading 7200 seconds | not executed | TimeTools.HoursUnreadAsWritten | TimeTools.HoursReadFixed |
| pluginbase-core/utilities/src/main/java/pluginbase/util/time/Duration.java:44-48 | the short-form parser's index error is not caught, so the long form is never tried | `1 second` | one second | not executed | Durations.ValueOfLongFormCrashes | Durations.ValueOfFixedReadsLongForm |
| pluginbase-core/messages/src/main/java/pluginbase/messages/DefaultMessageProvider.java:75-83 | the argument-count repair sits inside the guard for virtual entries, so it never runs on file entries | a file entry `no arguments` for a message expecting one `%s` | the entry replaced by the default message | not executed | CoreMessageProvider.LoadKeepsWrongCount | CoreMessageProvider.LoadFixedCounts |
| pluginbase-core/messages/src/main/java/pluginbase/messages/Messages.java:30 | message keys are `Object[]` arrays, compared by identity | two declarations of the same dotted key | one entry per key, found by contents | not executed | MessageRegistry.IdentityKeyedDuplicates | MessageRegistry.StructuralKeysFirstWins |
| pluginbase-core/commands/src/main/java/pluginbase/command/CommandContext.java:84 | an empty token inside a quoted run reads the character at index -1 | a quoted argument with two spaces inside, `"a  b"` | `a  b` | not executed | CommandContexts.EmptyTokenInQuotedRunFails | CommandContexts.EmptyTokenInQuotedRunFixed |
| pluginbase-core/commands/src/main/java/pluginbase/command/CommandContext.java:119-132 | the `--` terminator check is placed after the flag pattern test, which `--` fails, so it is never reached | the command `c -- -f` keeps `--` as an argument and sets flag `f` | all tokens after `--` positional | not executed | CommandContexts.TerminatorIgnored | CommandContexts.TerminatorHonoured |
| pluginbase-sponge/messaging-sponge/src/main/java/pluginbase/sponge/messaging/SpongeMessager.java:129-175 | the word pending when the loop ends is never placed in a line | `a`, a newline, `b` wraps to the single line `a` | the lines `a` and `b` | not executed | WordWrapping.LastWordDropped | WordWrapping.FixedKeepsEveryWord |
| commands/src/main/java/pluginbase/command/CommandTree.java:38-43 | alias tokens are stored as registered but looked up lower-cased | the alias `Foo`, typed as registered | the command name `foo` | not executed | CommandTrees.UpperCaseAliasUnmatched | CommandTrees.UpperCaseAliasFixed |
