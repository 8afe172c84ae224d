/** `os.path.join` with two components, under POSIX rules. */
module PosixPath {

  const Separator: char := '/'

  predicate IsAbsolute(p: string) {
    |p| > 0 && p[0] == Separator
  }

  predicate EndsWith(s: string, suffix: string) {
    |suffix| <= |s| && s[|s| - |suffix|..] == suffix
  }

  /**
   * An absolute name replaces the base; otherwise the name is appended to the
   * base, with a separator unless the base is empty or already ends in one.
   * The result always ends with the name, and a relative name joined onto a
   * non-empty base keeps the base in front and has a separator just before it.
   */
  function Join(base: string, name: string): (r: string)
    ensures EndsWith(r, name)
    ensures IsAbsolute(name) ==> r == name
    ensures !IsAbsolute(name) && base != [] ==>
              |r| > |name| && |base| <= |r| && r[..|base|] == base && r[|r| - |name| - 1] == Separator
    ensures !IsAbsolute(name) && base == [] ==> r == name
  {
    if IsAbsolute(name) then name
    else if base == [] || base[|base| - 1] == Separator then base + name
    else base + [Separator] + name
  }
}
