/** Canonical vault-relative paths (`domain/content_path.rs`). */
module ContentPaths {
  import opened Wrappers
  import opened Text

  datatype PathError = Empty | NotCanonical

  predicate DrivePrefix(p: string) {
    |p| >= 2 && ('A' <= p[0] <= 'Z' || 'a' <= p[0] <= 'z') && p[1] == ':'
  }

  predicate PlainSegment(part: string) {
    part != "" && part != "." && part != ".."
  }

  predicate Canonical(p: string) {
    && p != ""
    && p[0] != '/' && '\\' !in p && '\0' !in p && !DrivePrefix(p)
    && forall part :: part in Split(p, '/') ==> PlainSegment(part)
  }

  type ContentPath = p: string | Canonical(p) witness "a"

  /** `ContentPath::new` */
  function New(p: string): (r: Result<ContentPath, PathError>)
    ensures r.Success? <==> Canonical(p)
    ensures r.Success? ==> r.value == p
  {
    if p == "" then Failure(Empty)
    else if p[0] == '/' || '\\' in p || '\0' in p || DrivePrefix(p) then Failure(NotCanonical)
    else if exists part :: part in Split(p, '/') && !PlainSegment(part) then Failure(NotCanonical)
    else Success(p)
  }

  /** The last segment of a path. */
  function FileName(path: string): string {
    var parts := Split(path, '/');
    parts[|parts| - 1]
  }

  const VAULT_ROOT := "vault"
  const MANIFEST_PATH := ".mineral-backup/manifest"
  const ATTRIBUTES_PATH := ".gitattributes"

  /** `BackupProjection::tree_path`: the source's `expect` never fires. */
  function TreePath(path: ContentPath): (t: ContentPath)
    ensures t == "vault/" + path
  {
    TreePathCanonical(path);
    VAULT_ROOT + "/" + path
  }

  lemma TreePathCanonical(p: string)
    requires Canonical(p)
    ensures Canonical(VAULT_ROOT + "/" + p)
  {
    SplitCons(VAULT_ROOT, '/', p);
    assert VAULT_ROOT + "/" + p == VAULT_ROOT + ['/'] + p;
  }

  /** Shifting under the vault root is injective and never meets the two metadata files. */
  lemma TreePathDisjoint(a: ContentPath, b: ContentPath)
    ensures TreePath(a) == TreePath(b) ==> a == b
    ensures TreePath(a) != MANIFEST_PATH && TreePath(a) != ATTRIBUTES_PATH
  {
    assert TreePath(a)[0] == 'v';
    assert TreePath(a)[6..] == a && TreePath(b)[6..] == b;
  }
}
