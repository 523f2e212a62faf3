/**
 The built-in ignore list `defaultIgnorePatterns` (src/constants.ts:1-76),
 entry for entry and in the same order. It is written as the concatenation
 of the runs of related entries the source lists one after another.
 */
module Defaults {

  /** The file the tool writes; the caller always adds it to the ignore list. */
  const OutputFile: string := "project-print.txt"

  /** Build output, dependency and coverage directories, version-control and editor metadata (src/constants.ts:2-16). */
  const ToolingPatterns: seq<string> := [
    "node_modules", "*.log", "dist", "build", "coverage", "documentation",
    ".prettierrc", ".gitignore", ".serverless", ".idea", ".git/", ".DS_Store",
    ".husky", "package-lock.json", ".vscode"
  ]

  /** Image extensions (src/constants.ts:17-29). */
  const ImagePatterns: seq<string> := [
    ".jpg", ".jpeg", ".png", ".gif", ".svg", ".ico", ".webp", ".tif", ".tiff",
    ".bmp", ".heif", ".heic", ".jfif"
  ]

  /** Font and animation extensions (src/constants.ts:30-41). */
  const FontPatterns: seq<string> := [
    ".ttf", ".riv", ".otf", ".woff", ".woff2", ".eot", ".sfnt", ".fnt", ".pfa",
    ".pfb", ".pfm", ".afm"
  ]

  /** More image extensions and office documents (src/constants.ts:42-51). */
  const DocumentPatterns: seq<string> := [
    ".jp2", ".jpe", ".jif", ".pdf", ".doc", ".docx", ".xls", ".xlsx", ".ppt",
    ".pptx"
  ]

  /** Environment, backup, temporary and swap files, as wildcards (src/constants.ts:52-55). */
  const ScratchPatterns: seq<string> := [
    "*.env", "*.bak", "*.tmp", "*.swp"
  ]

  /** Package-manager and tool configuration, and the tool's own output (src/constants.ts:56-75). */
  const ConfigPatterns: seq<string> := [
    ".eslintcache", ".yarn", ".yarnrc", ".yarn.lock", ".editorconfig", ".npmrc",
    ".babelrc", ".nyc_output", ".cache", "project-print.txt", ".eslintrc",
    ".eslintrc.js", ".eslintrc.json", ".eslintrc.yml", ".eslintrc.yaml",
    ".npmignore", ".babelrc.js", ".babelrc.json", ".babelrc.yml", ".babelrc.yaml"
  ]

  /** `defaultIgnorePatterns`, 74 entries. */
  const DefaultIgnorePatterns: seq<string> :=
    ToolingPatterns + ImagePatterns + FontPatterns + DocumentPatterns + ScratchPatterns + ConfigPatterns

  /** The list has 74 entries, contains the tool's own output file (src/constants.ts:65)
      and no empty entry, which would be inert (src/index.ts:44-46). */
  lemma DefaultsShape()
    ensures |DefaultIgnorePatterns| == 74
    ensures OutputFile in DefaultIgnorePatterns
    ensures "" !in DefaultIgnorePatterns
  {
    assert "" !in ToolingPatterns && "" !in ImagePatterns && "" !in FontPatterns;
    assert "" !in DocumentPatterns && "" !in ScratchPatterns && "" !in ConfigPatterns;
    assert OutputFile in ConfigPatterns;
  }
}
