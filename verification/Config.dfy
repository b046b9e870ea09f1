/**
 * The configuration constants the core reads. Locating and loading the
 * `.env` file, and the absolute base directory, are not part of this model;
 * paths are kept relative to the project's base directory.
 */
module Config {

  /** Extensions (lowercase, with the dot) of files that are never chunked. */
  const IGNORED_EXTENSIONS: set<string> := {
    // images
    ".png", ".jpg", ".jpeg", ".gif", ".svg", ".ico",
    // compiled or binary
    ".pyc", ".o", ".exe", ".dll", ".so", ".dylib",
    // model weights and data
    ".pth", ".pt", ".onnx", ".pkl", ".bin", ".data", ".h5",
    // version control
    ".git",
    // lock files
    ".lock",
    // office documents
    ".pdf", ".docx"
  }

  const OPENAI_MODEL: string := "gpt-4o-mini"
  const EMBED_MODEL: string := "text-embedding-3-small"

  /** `REPO_DIR = BASE_DIR / "data" / "repos"`, as path components below the base directory. */
  const REPO_DIR: seq<string> := ["data", "repos"]
}
