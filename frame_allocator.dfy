/**
 * The upload server's naming of staged frames: the next name is one past the
 * largest number among the `<n>.jpg` files present, or `0.jpg` when there is
 * none. A directory listing is the sequence of entry names.
 */
module FrameAllocator {
  import opened Common
  import opened Decimal

  const FramesRoute := "/frames/"

  /** The text before the first `.` (`name.split('.')[0]`). */
  function BeforeFirstDot(name: string): (r: string)
    ensures |r| <= |name| && r == name[..|r|]
    ensures '.' !in r
    ensures |r| < |name| ==> name[|r|] == '.'
  {
    if name == [] || name[0] == '.' then [] else [name[0]] + BeforeFirstDot(name[1..])
  }

  /** The white space `parseInt` skips before the number; only its ASCII members are modelled. */
  predicate IsJsSpace(c: char) {
    c == ' ' || '\t' <= c <= '\r'
  }

  /** `s` without its leading white space. */
  function TrimStart(s: string): (r: string)
    ensures |r| <= |s|
    ensures r != [] ==> !IsJsSpace(r[0])
  {
    if s != [] && IsJsSpace(s[0]) then TrimStart(s[1..]) else s
  }

  /** Exactly the leading white space is dropped. */
  lemma {:induction false} TrimStartSpaces(pre: string, t: string)
    requires forall i :: 0 <= i < |pre| ==> IsJsSpace(pre[i])
    requires t == [] || !IsJsSpace(t[0])
    ensures TrimStart(pre + t) == t
  {
    if pre == [] {
      assert pre + t == t;
    } else {
      assert (pre + t)[1..] == pre[1..] + t;
      TrimStartSpaces(pre[1..], t);
    }
  }

  predicate IsHexDigit(c: char) {
    IsDigit(c) || 'a' <= c <= 'f' || 'A' <= c <= 'F'
  }

  function HexDigitValue(c: char): (d: nat)
    requires IsHexDigit(c)
    ensures d < 16
  {
    if IsDigit(c) then DigitValue(c)
    else if 'a' <= c <= 'f' then c as int - 'a' as int + 10
    else c as int - 'A' as int + 10
  }

  predicate IsRadixDigit(c: char, hex: bool) {
    if hex then IsHexDigit(c) else IsDigit(c)
  }

  /**
   * Reads the run of digits of the radix (16 when `hex`, else 10) at the
   * start of `s`, left to right, into `acc`; reading stops at the first
   * character that is not such a digit.
   */
  function Accumulate(s: string, hex: bool, acc: nat): nat {
    if s == [] || !IsRadixDigit(s[0], hex) then acc
    else if hex then Accumulate(s[1..], hex, acc * 16 + HexDigitValue(s[0]))
    else Accumulate(s[1..], hex, acc * 10 + DigitValue(s[0]))
  }

  /**
   * JavaScript's `parseInt` without a radix: leading white space is skipped,
   * then an optional sign, then a `0x` or `0X` prefix selects base 16; the
   * longest run of digits that follows is the number and anything after it
   * is ignored. `None` is `NaN`: there is no digit where one is needed.
   */
  function ParseInt(s: string): (r: Option<int>)
    ensures r.Some? ==> TrimStart(s) != []
    ensures r.Some? && r.value < 0 ==> TrimStart(s)[0] == '-'
  {
    var t := TrimStart(s);
    if t != [] && t[0] == '-' then
      match ParseMagnitude(t[1..])
      case Some(m) => Some(-m)
      case None => None
    else if t != [] && t[0] == '+' then ParseMagnitude(t[1..])
    else ParseMagnitude(t)
  }

  /** The unsigned part: a base-16 number after `0x`, else a decimal one. */
  function ParseMagnitude(u: string): (r: Option<int>)
    ensures r.Some? ==> u != [] && IsDigit(u[0]) && r.value >= 0
  {
    var hex := |u| >= 2 && u[0] == '0' && (u[1] == 'x' || u[1] == 'X');
    var digits := if hex then u[2..] else u;
    if digits != [] && IsRadixDigit(digits[0], hex) then Some(Accumulate(digits, hex, 0)) else None
  }

  /** `parseInt` reads back the rendering of any integer. */
  lemma ParseIntOfShowInt(n: int)
    ensures ParseInt(ShowInt(n)) == Some(n)
  {
    var m: nat := if n < 0 then -n else n;
    var digits := ShowNat(m);
    assert digits + [] == digits;
    MagnitudeOfDigits(digits, []);
    ShowNatValue(m);
    var t := ShowInt(n);
    assert !IsJsSpace(t[0]);
    if n < 0 {
      assert t[1..] == digits;
    }
  }

  /**
   * Text after the digits is ignored, so `12abc` reads as 12, unless the
   * digits are a lone `0` followed by `x` or `X`, which starts a base-16 number.
   */
  lemma ParseIntIgnoresTrailing(digits: string, rest: string)
    requires digits != [] && AllDigits(digits)
    requires rest == [] || !IsDigit(rest[0])
    requires !(digits == "0" && rest != [] && (rest[0] == 'x' || rest[0] == 'X'))
    ensures ParseInt(digits + rest) == Some(DigitsValue(digits))
  {
    var s := digits + rest;
    assert !IsJsSpace(s[0]) && s[0] != '-' && s[0] != '+';
    MagnitudeOfDigits(digits, rest);
  }

  lemma MagnitudeOfDigits(digits: string, rest: string)
    requires digits != [] && AllDigits(digits)
    requires rest == [] || !IsDigit(rest[0])
    requires !(digits == "0" && rest != [] && (rest[0] == 'x' || rest[0] == 'X'))
    ensures ParseMagnitude(digits + rest) == Some(DigitsValue(digits))
  {
    var s := digits + rest;
    assert s[0] == digits[0];
    assert |s| >= 2 && s[0] == '0' ==> IsDigit(s[1]) || s[1] == rest[0];
    AccumulateStops(digits, rest, 0);
    AccumulateDigits(digits);
  }

  /** Reading stops where the digits end. */
  lemma {:induction false} AccumulateStops(digits: string, rest: string, acc: nat)
    requires AllDigits(digits)
    requires rest == [] || !IsDigit(rest[0])
    ensures Accumulate(digits + rest, false, acc) == Accumulate(digits, false, acc)
  {
    if digits == [] {
      assert digits + rest == rest;
    } else {
      assert (digits + rest)[1..] == digits[1..] + rest;
      AccumulateStops(digits[1..], rest, acc * 10 + DigitValue(digits[0]));
    }
  }

  lemma {:induction false} AccumulateSnoc(digits: string, c: char, acc: nat)
    requires AllDigits(digits) && IsDigit(c)
    ensures Accumulate(digits + [c], false, acc) == Accumulate(digits, false, acc) * 10 + DigitValue(c)
  {
    if digits == [] {
      assert digits + [c] == [c];
      assert [c][1..] == [];
    } else {
      assert (digits + [c])[1..] == digits[1..] + [c];
      AccumulateSnoc(digits[1..], c, acc * 10 + DigitValue(digits[0]));
    }
  }

  /** Reading decimal digits left to right gives the number they denote. */
  lemma {:induction false} AccumulateDigits(digits: string)
    requires AllDigits(digits)
    ensures Accumulate(digits, false, 0) == DigitsValue(digits)
  {
    if digits != [] {
      var init := digits[..|digits| - 1];
      assert digits == init + [digits[|digits| - 1]];
      AccumulateDigits(init);
      AccumulateSnoc(init, digits[|digits| - 1], 0);
    }
  }

  /** A name's frame number: a `.jpg` name whose text before the first dot `parseInt` reads as a number. */
  function FrameIndex(name: string): (r: Option<int>)
    ensures r.Some? ==> EndsWith(name, ".jpg")
    ensures EndsWith(name, ".jpg") ==> r == ParseInt(BeforeFirstDot(name))
  {
    if EndsWith(name, ".jpg") then ParseInt(BeforeFirstDot(name)) else None
  }

  /** Each listed name's frame number, if it has one: the `map` step before the `isInteger` filter. */
  function Numbers(listing: seq<string>): (r: seq<Option<int>>)
    ensures |r| == |listing|
  {
    if listing == [] then [] else [FrameIndex(listing[0])] + Numbers(listing[1..])
  }

  lemma {:induction false} NumbersAt(listing: seq<string>, i: nat)
    requires i < |listing|
    ensures Numbers(listing)[i] == FrameIndex(listing[i])
  {
    if i > 0 {
      NumbersAt(listing[1..], i - 1);
    }
  }

  lemma {:induction false} NumbersSnoc(listing: seq<string>, name: string)
    ensures Numbers(listing + [name]) == Numbers(listing) + [FrameIndex(name)]
  {
    if listing == [] {
      assert listing + [name] == [name];
    } else {
      assert (listing + [name])[1..] == listing[1..] + [name];
      NumbersSnoc(listing[1..], name);
    }
  }

  /** Equal sets of names give equal sets of frame numbers. */
  lemma NumbersOfSameNames(l1: seq<string>, l2: seq<string>)
    requires Elems(l1) == Elems(l2)
    ensures Elems(Numbers(l1)) == Elems(Numbers(l2))
  {
    forall x | x in Elems(Numbers(l1)) ensures x in Elems(Numbers(l2)) {
      SameNamesNumber(l1, l2, x);
    }
    forall x | x in Elems(Numbers(l2)) ensures x in Elems(Numbers(l1)) {
      SameNamesNumber(l2, l1, x);
    }
  }

  lemma SameNamesNumber(l1: seq<string>, l2: seq<string>, x: Option<int>)
    requires Elems(l1) <= Elems(l2) && x in Numbers(l1)
    ensures x in Numbers(l2)
  {
    var i :| 0 <= i < |l1| && Numbers(l1)[i] == x;
    NumbersAt(l1, i);
    assert l1[i] in Elems(l2);
    var j :| 0 <= j < |l2| && l2[j] == l1[i];
    NumbersAt(l2, j);
  }

  /** The numbers present, in listing order (`filter(Number.isInteger)`). */
  function Present(nums: seq<Option<int>>): (r: seq<int>)
    ensures forall k :: k in r <==> Some(k) in nums
  {
    if nums == [] then []
    else
      var rest := Present(nums[1..]);
      assert forall x :: x in nums <==> x == nums[0] || x in nums[1..];
      match nums[0]
      case Some(k) => [k] + rest
      case None => rest
  }

  /** `Math.max(...indices)`. */
  function MaxOf(s: seq<int>): (m: int)
    requires s != []
    ensures m in s && forall i :: 0 <= i < |s| ==> s[i] <= m
  {
    if |s| == 1 then s[0]
    else
      var m := MaxOf(s[1..]);
      assert forall i :: 1 <= i < |s| ==> s[i] == s[1..][i - 1];
      if s[0] > m then s[0] else m
  }

  /** One past the largest number present, or 0 when there is none. */
  function NextOf(nums: seq<Option<int>>): int {
    var ids := Present(nums);
    if |ids| > 0 then MaxOf(ids) + 1 else 0
  }

  /** Some entry is a number. */
  predicate HasNumber(nums: seq<Option<int>>) {
    exists i :: 0 <= i < |nums| && nums[i].Some?
  }

  /**
   * The new index is 0 when no number is present, and otherwise one past the
   * largest: above every number present, and one more than one of them.
   */
  lemma NextOfAboveAll(nums: seq<Option<int>>)
    ensures forall i :: 0 <= i < |nums| && nums[i].Some? ==> nums[i].value < NextOf(nums)
    ensures !HasNumber(nums) ==> NextOf(nums) == 0
    ensures HasNumber(nums) ==> exists i :: 0 <= i < |nums| && nums[i] == Some(NextOf(nums) - 1)
  {
    var ids := Present(nums);
    forall i | 0 <= i < |nums| && nums[i].Some?
      ensures nums[i].value < NextOf(nums)
    {
      assert nums[i].value in ids;
    }
    if ids != [] {
      assert MaxOf(ids) in ids;
    }
  }

  /** The new index depends only on which numbers are present, not on their order or repetition. */
  lemma NextOfSameNumbers(n1: seq<Option<int>>, n2: seq<Option<int>>)
    requires Elems(n1) == Elems(n2)
    ensures NextOf(n1) == NextOf(n2)
  {
    NextOfAboveAll(n1);
    NextOfAboveAll(n2);
    assert forall x :: x in n1 <==> x in n2 by {
      forall x ensures x in n1 <==> x in n2 {
        assert x in n1 <==> x in Elems(n1);
        assert x in n2 <==> x in Elems(n2);
      }
    }
    if HasNumber(n1) {
      var i :| 0 <= i < |n1| && n1[i] == Some(NextOf(n1) - 1);
      var j :| 0 <= j < |n2| && n2[j] == Some(NextOf(n2) - 1);
      assert n1[i] in n2 && n2[j] in n1;
    }
  }

  /**
   * Names such as `-5.jpg` are numbered too: the new index is negative
   * exactly when numbers are present and all of them are below -1.
   */
  lemma NegativeNextIndex(nums: seq<Option<int>>)
    ensures NextOf(nums) < 0 <==>
              && HasNumber(nums)
              && forall i :: 0 <= i < |nums| && nums[i].Some? ==> nums[i].value < -1
  {
    NextOfAboveAll(nums);
  }

  /** A new number above all present ones becomes the largest. */
  lemma NextOfAfterNew(nums: seq<Option<int>>, n: int)
    requires forall i :: 0 <= i < |nums| && nums[i].Some? ==> nums[i].value < n
    ensures NextOf(nums + [Some(n)]) == n + 1
  {
    var extended := nums + [Some(n)];
    NextOfAboveAll(extended);
    assert extended[|nums|] == Some(n);
    assert forall i :: 0 <= i < |nums| ==> extended[i] == nums[i];
  }

  /**
   * The allocator: one past the largest frame number among the listed
   * names, or 0 when no name has one.
   */
  function NextIndex(listing: seq<string>): (r: int)
    ensures forall i :: 0 <= i < |listing| && FrameIndex(listing[i]).Some? ==> FrameIndex(listing[i]).value < r
    ensures (forall i :: 0 <= i < |listing| ==> FrameIndex(listing[i]).None?) ==> r == 0
    ensures (exists i :: 0 <= i < |listing| && FrameIndex(listing[i]).Some?) ==>
              exists i :: 0 <= i < |listing| && FrameIndex(listing[i]) == Some(r - 1)
  {
    ListedNumbers(listing);
    NextOfAboveAll(Numbers(listing));
    NextOf(Numbers(listing))
  }

  lemma ListedNumbers(listing: seq<string>)
    ensures forall i :: 0 <= i < |listing| ==> Numbers(listing)[i] == FrameIndex(listing[i])
  {
    forall i | 0 <= i < |listing| ensures Numbers(listing)[i] == FrameIndex(listing[i]) {
      NumbersAt(listing, i);
    }
  }

  /**
   * The multer `filename` callback: `<n>.jpg` for the new index `n`, a name
   * not yet in the directory whose frame number is `n`.
   */
  function NextFrameName(listing: seq<string>): (r: string)
    ensures r !in listing
    ensures EndsWith(r, ".jpg") && FrameIndex(r) == Some(NextIndex(listing))
  {
    NewNameIsFresh(listing);
    FrameIndexOfRendered(NextIndex(listing));
    ShowInt(NextIndex(listing)) + ".jpg"
  }

  /**
   * The new name depends only on which names are present, not on the order
   * of the listing or on repeated entries.
   */
  lemma NextIndexOrderIndependent(l1: seq<string>, l2: seq<string>)
    requires Elems(l1) == Elems(l2)
    ensures NextIndex(l1) == NextIndex(l2)
    ensures NextFrameName(l1) == NextFrameName(l2)
  {
    NumbersOfSameNames(l1, l2);
    NextOfSameNumbers(Numbers(l1), Numbers(l2));
  }

  lemma {:induction false} PresentSnocNone(nums: seq<Option<int>>)
    ensures Present(nums + [None]) == Present(nums)
  {
    if nums != [] {
      assert (nums + [None])[1..] == nums[1..] + [None];
      PresentSnocNone(nums[1..]);
    }
  }

  /**
   * A name without a frame number (not ending in `.jpg`, or not read as an
   * integer before its first dot) has no effect on the new index.
   */
  lemma UnnumberedNameIgnored(listing: seq<string>, name: string)
    requires FrameIndex(name) == None
    ensures NextIndex(listing + [name]) == NextIndex(listing)
  {
    NumbersSnoc(listing, name);
    PresentSnocNone(Numbers(listing));
  }

  /**
   * Any `.jpg` name that starts with decimal digits followed by a dot is
   * numbered by those digits: `007.jpg` is 7 and `1.5.jpg` is 1.
   */
  lemma FrameIndexOfDigits(digits: string, rest: string)
    requires digits != [] && AllDigits(digits)
    requires rest != [] && rest[0] == '.'
    requires EndsWith(digits + rest, ".jpg")
    ensures FrameIndex(digits + rest) == Some(DigitsValue(digits))
  {
    BeforeDotOfSuffixed(digits, rest);
    assert digits + [] == digits;
    ParseIntIgnoresTrailing(digits, []);
  }

  /** A lone `-5.jpg` is frame -5, so the next upload is `-4.jpg`. */
  lemma OneNegativeFrame()
    ensures NextFrameName(["-5.jpg"]) == "-4.jpg"
  {
    assert ShowInt(-5) == "-5";
    FrameIndexOfRendered(-5);
    assert ShowInt(-5) + ".jpg" == "-5.jpg";
    var listing := ["-5.jpg"];
    assert FrameIndex(listing[0]) == Some(-5);
    assert NextIndex(listing) == -4;
    assert ShowInt(-4) == "-4";
  }

  /** In a directory without frames the first upload is `0.jpg`. */
  lemma EmptyDirectoryStartsAtZero(listing: seq<string>)
    requires forall i :: 0 <= i < |listing| ==> FrameIndex(listing[i]).None?
    ensures NextFrameName(listing) == "0.jpg"
  {
    assert ShowInt(0) == "0";
  }

  /** The `.jpg` test is case-sensitive: a `.JPG` file is not numbered. */
  lemma UpperCaseJpgIsUnnumbered(stem: string)
    ensures FrameIndex(stem + ".JPG") == None
  {
    var name := stem + ".JPG";
    assert name[|name| - 1] == 'G';
  }

  /** The name given to frame `n` has frame number `n`. */
  lemma FrameIndexOfRendered(n: int)
    ensures FrameIndex(ShowInt(n) + ".jpg") == Some(n)
  {
    var s := ShowInt(n);
    var name := s + ".jpg";
    assert name[|s|..] == ".jpg";
    BeforeDotOfSuffixed(s, ".jpg");
    ParseIntOfShowInt(n);
  }

  lemma {:induction false} BeforeDotOfSuffixed(s: string, ext: string)
    requires '.' !in s && ext != [] && ext[0] == '.'
    ensures BeforeFirstDot(s + ext) == s
  {
    if s == [] {
      assert s + ext == ext;
    } else {
      assert (s + ext)[1..] == s[1..] + ext;
      assert '.' !in s[1..];
      BeforeDotOfSuffixed(s[1..], ext);
    }
  }

  /** An upload never takes the name of a file already in the directory. */
  lemma NewNameIsFresh(listing: seq<string>)
    ensures ShowInt(NextIndex(listing)) + ".jpg" !in listing
  {
    FrameIndexOfRendered(NextIndex(listing));
  }

  /** Once the new frame is stored, the next upload gets the number after it. */
  lemma NextUploadFollows(listing: seq<string>)
    ensures NextIndex(listing + [NextFrameName(listing)]) == NextIndex(listing) + 1
  {
    var n := NextIndex(listing);
    NumbersSnoc(listing, NextFrameName(listing));
    ListedNumbers(listing);
    NextOfAfterNew(Numbers(listing), n);
  }

  const UploadedMessage := "Image uploaded successfully!"
  const NoFileMessage := "\U{274C} No file uploaded"

  /** The JSON answer of `POST /frames`. */
  datatype UploadReply = UploadReply(status: nat, success: bool, message: string, filePath: Option<string>)

  /**
   * `POST /frames` with or without a file part, given the directory listing
   * when the file arrives.
   */
  function FramesUpload(listing: seq<string>, hasFile: bool): (r: UploadReply)
    ensures r.success <==> hasFile
    ensures !hasFile ==> r.status == 400 && r.message == NoFileMessage && r.filePath == None
    ensures hasFile ==>
              && r.status == 200 && r.message == UploadedMessage
              && r.filePath == Some(FramesRoute + NextFrameName(listing))
  {
    if hasFile then UploadReply(200, true, UploadedMessage, Some(FramesRoute + NextFrameName(listing)))
    else UploadReply(400, false, NoFileMessage, None)
  }
}
