/**
 * The scan of `uploadPackageType` over the listed files of an uploaded
 * package: the first file (in list order) whose whole path contains
 * `android.bundle` or `main.jsbundle` decides the platform, Android being
 * tested first within a file. Ignored files are not filtered out here.
 */
module Classifier {
  import opened JsStrings
  import opened JsObjects

  /** `constName.ANDROID`, `constName.IOS`, and the initial `0` for neither. */
  datatype PackageType = Unknown | Android | Ios

  const AndroidBundle := "android.bundle"
  const IosBundle := "main.jsbundle"

  /** Neither pattern occurs in `file`. */
  predicate Unmatched(file: string) {
    !Contains(file, AndroidBundle) && !Contains(file, IosBundle)
  }

  /** `files[i]` is the first file that matches either pattern. */
  predicate FirstMatchAt(files: seq<string>, i: int) {
    0 <= i < |files| && !Unmatched(files[i]) && forall j :: 0 <= j < i ==> Unmatched(files[j])
  }

  /** The package type the scan settles on: unknown exactly when no file matches. */
  function Classify(files: seq<string>): (t: PackageType)
    ensures t == Unknown <==> forall i :: 0 <= i < |files| ==> Unmatched(files[i])
  {
    if files == [] then Unknown
    else if Contains(files[0], AndroidBundle) then Android
    else if Contains(files[0], IosBundle) then Ios
    else
      assert forall i :: 1 <= i < |files| ==> files[i] == files[1..][i - 1];
      Classify(files[1..])
  }

  /**
   * The type is Android when the first matching file contains
   * `android.bundle`, and iOS when it contains `main.jsbundle` but not
   * `android.bundle`.
   */
  lemma {:induction false} ClassifyFirstMatch(files: seq<string>)
    ensures Classify(files) == Android <==>
      exists i :: FirstMatchAt(files, i) && Contains(files[i], AndroidBundle)
    ensures Classify(files) == Ios <==>
      exists i :: FirstMatchAt(files, i) && !Contains(files[i], AndroidBundle)
  {
    if files == [] {
    } else if !Unmatched(files[0]) {
      assert FirstMatchAt(files, 0);
      forall i | FirstMatchAt(files, i) ensures i == 0 {
      }
    } else {
      var rest := files[1..];
      ClassifyFirstMatch(rest);
      forall i | 0 <= i < |files| - 1 ensures FirstMatchAt(files, i + 1) <==> FirstMatchAt(rest, i) {
        assert forall j :: 0 <= j < i ==> rest[j] == files[j + 1];
      }
      if exists i :: FirstMatchAt(files, i) {
        var i :| FirstMatchAt(files, i);
        assert i > 0 && FirstMatchAt(rest, i - 1);
      }
      if exists i :: FirstMatchAt(rest, i) {
        var i :| FirstMatchAt(rest, i);
        assert FirstMatchAt(files, i + 1);
      }
    }
  }

  /**
   * `uploadPackageType` once the directory has been listed: rejects an empty
   * listing with `empty files`, otherwise scans the files in order and stops
   * at the first one that matches.
   */
  method UploadPackageType(files: seq<string>) returns (r: Result<PackageType>)
    ensures files == [] ==> r == Err(EmptyFiles)
    ensures files != [] ==> r == Ok(Classify(files))
  {
    if |files| == 0 {
      return Err(EmptyFiles);
    }
    var packageType := Unknown;
    var i := 0;
    while i < |files|
      invariant 0 <= i <= |files|
      invariant packageType == Unknown
      invariant Classify(files[i..]) == Classify(files)
    {
      if Contains(files[i], AndroidBundle) {
        packageType := Android;
        break;
      }
      if Contains(files[i], IosBundle) {
        packageType := Ios;
        break;
      }
      assert files[i..][1..] == files[i + 1..];
      i := i + 1;
    }
    return Ok(packageType);
  }
}
