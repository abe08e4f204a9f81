/**
 * The output file names of `compress` (util.h:263) and `decompress`
 * (util.h:301-302).
 */
module FileNames {

  /** The name `compress` writes to: the input name with ".huf" appended. */
  function CompressedName(filename: string): (name: string)
    ensures |name| == |filename| + 4
    ensures filename <= name && name[|filename|..] == ".huf"
  {
    filename + ".huf"
  }

  /**
   * What `getline(parseFilename, decompFile, '.')` reads: the name up to,
   * not including, its first '.', or the whole name when it has none.
   */
  function BaseName(filename: string): (base: string)
    ensures base <= filename
    ensures '.' !in base
    ensures |base| < |filename| ==> filename[|base|] == '.'
  {
    if filename == [] || filename[0] == '.' then []
    else [filename[0]] + BaseName(filename[1..])
  }

  /** The name `decompress` writes to: the base name with "_unc.txt" appended, whatever the extension was. */
  function DecompressedName(filename: string): (name: string)
    ensures |name| >= 8 && name[|name| - 8..] == "_unc.txt"
    ensures name[..|name| - 8] <= filename && '.' !in name[..|name| - 8]
    ensures |name| - 8 < |filename| ==> filename[|name| - 8] == '.'
  {
    BaseName(filename) + "_unc.txt"
  }

  /** The base name is the only prefix with no '.' that ends at a '.' or at the end of the name. */
  lemma {:induction false} BaseNameUnique(filename: string, p: string)
    requires p <= filename && '.' !in p
    requires |p| < |filename| ==> filename[|p|] == '.'
    ensures p == BaseName(filename)
  {
  }

  /** Decompressing a compressed file writes to the name derived from the original input file. */
  lemma DecompressedNameOfCompressed(filename: string)
    ensures DecompressedName(CompressedName(filename)) == DecompressedName(filename)
  {
    var b := BaseName(filename);
    var c := CompressedName(filename);
    if |b| == |filename| {
      assert b == filename;
      assert c[|b|] == '.';
    }
    BaseNameUnique(c, b);
  }

  /**
   * "stem.ext" compresses to "stem.ext.huf", which decompresses to
   * "stem_unc.txt" whatever `ext` is (util.h:290-291 gives "example.txt").
   */
  lemma StemKeepsNoExtension(stem: string, ext: string)
    requires '.' !in stem
    ensures CompressedName(stem + "." + ext) == stem + "." + ext + ".huf"
    ensures DecompressedName(CompressedName(stem + "." + ext)) == stem + "_unc.txt"
  {
    var f := stem + "." + ext;
    assert f[|stem|] == '.';
    BaseNameUnique(f, stem);
    DecompressedNameOfCompressed(f);
  }
}
