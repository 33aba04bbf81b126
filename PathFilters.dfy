/** IPathFilter, the accept-all filter and FileExtensionFilter. */
module PathFilters {

  /** String.endsWith. */
  predicate EndsWith(s: string, suffix: string) {
    |suffix| <= |s| && s[|s| - |suffix|..] == suffix
  }

  /** String.startsWith. */
  predicate StartsWith(s: string, prefix: string) {
    |prefix| <= |s| && s[..|prefix|] == prefix
  }

  /** `suffix` ends `s` exactly when `s` is some string followed by `suffix`. */
  lemma EndsWithIff(s: string, suffix: string)
    ensures EndsWith(s, suffix) <==> exists front :: s == front + suffix
  {
    if EndsWith(s, suffix) {
      var front := s[..|s| - |suffix|];
      assert s == front + suffix;
    }
    if exists front :: s == front + suffix {
      var front :| s == front + suffix;
      assert s[|s| - |suffix|..] == suffix;
    }
  }

  /** `prefix` starts `s` exactly when `s` is `prefix` followed by some string. */
  lemma StartsWithIff(s: string, prefix: string)
    ensures StartsWith(s, prefix) <==> exists rest :: s == prefix + rest
  {
    if StartsWith(s, prefix) {
      var rest := s[|prefix|..];
      assert s == prefix + rest;
    }
    if exists rest :: s == prefix + rest {
      var rest :| s == prefix + rest;
      assert s[..|prefix|] == prefix;
    }
  }

  /** The kinds of path filter the builder works with. */
  datatype FilterKind =
    | AcceptAll                          // Builder.ACCEPT_ALL_FILTER
    | Extensions(extensions: seq<string>)  // FileExtensionFilter
    | Custom(accepts: string -> bool)    // a filter supplied by the caller

  /**
   * IPathFilter. A class, so that two filters are the same key of the parser
   * table exactly when they are the same object, as with Java's identity equality.
   */
  class PathFilter {
    const kind: FilterKind

    constructor (kind: FilterKind)
      ensures this.kind == kind
    {
      this.kind := kind;
    }

    /** What accept(path) answers. */
    ghost predicate Accepts(path: string) {
      match kind
      case AcceptAll => true
      case Extensions(extensions) => exists e :: e in extensions && EndsWith(path, e)
      case Custom(accepts) => accepts(path)
    }

    /** IPathFilter.accept; for FileExtensionFilter a scan over the extensions. */
    method Accept(path: string) returns (b: bool)
      ensures b == Accepts(path)
      ensures kind.AcceptAll? ==> b
      ensures kind.Extensions? ==>
        (b <==> exists i :: 0 <= i < |kind.extensions| && EndsWith(path, kind.extensions[i]))
    {
      match kind
      case AcceptAll =>
        b := true;
      case Custom(accepts) =>
        b := accepts(path);
      case Extensions(extensions) =>
        b := false;
        var i := 0;
        while i < |extensions|
          invariant 0 <= i <= |extensions|
          invariant forall j :: 0 <= j < i ==> !EndsWith(path, extensions[j])
        {
          if EndsWith(path, extensions[i]) {
            b := true;
            return;
          }
          i := i + 1;
        }
    }
  }
}
