/** The deployment companion: its entry list, its size bound, and the self-check through the codec. */
module Companion {
  import opened Results
  import opened Paths
  import opened NewcFormat
  import opened NewcCodec
  import opened NewcProperties
  import Ramdisk

  const MAX_PAYLOAD: nat := 1024 * 1024

  /** S_IFDIR | 0755, S_IFDIR | 0700, S_IFREG | 0644 and S_IFREG | 0600. */
  const PUBLIC_DIRECTORY: nat := 16877
  const PRIVATE_DIRECTORY: nat := 16832
  const PUBLIC_FILE: nat := 33188
  const PRIVATE_FILE: nat := 33152

  datatype File = File(name: Bytes, data: Bytes)

  datatype ImageError = Refused(reason: EncodeError) | OverBudget | RoundTripMismatch

  function Directory(name: string, mode: nat): Entry
    requires forall c | c in name :: c as int < 128
  {
    Entry(Ascii(name), mode, [], 0, 0, 0, 0)
  }

  predicate Secret(name: Bytes) {
    Ascii("etc/dropbear/") <= name || Ascii("root/.ssh/") <= name || Ascii("etc/crontabs/") <= name
    || name == Ascii("etc/config/ls420d-backup")
  }

  function FileEntry(f: File): Entry {
    Entry(f.name, if Secret(f.name) then PRIVATE_FILE else PUBLIC_FILE, f.data, 0, 0, 0, 0)
  }

  function FileEntries(files: seq<File>): (r: seq<Entry>)
    ensures |r| == |files| && forall i | 0 <= i < |files| :: r[i] == FileEntry(files[i])
  {
    seq(|files|, i requires 0 <= i < |files| => FileEntry(files[i]))
  }

  function Directories(example: bool, backup: bool): seq<Entry> {
    [Directory("etc", PUBLIC_DIRECTORY), Directory("etc/config", PUBLIC_DIRECTORY)] +
    (if example then [] else [Directory("etc/dropbear", PRIVATE_DIRECTORY)]) +
    (if backup then
       [Directory("etc/crontabs", PRIVATE_DIRECTORY), Directory("root", PRIVATE_DIRECTORY),
        Directory("root/.ssh", PRIVATE_DIRECTORY)]
     else [])
  }

  /** `files` holds the dictionary's items in the order that sorting gives them. */
  function Entries(files: seq<File>, example: bool, backup: bool): seq<Entry> {
    Directories(example, backup) + FileEntries(files)
  }

  ghost predicate Storable(files: seq<File>) {
    forall f | f in files :: Normal(f.name) && |f.name| < 4096
  }

  // ----- facts about the entry list

  lemma {:induction false} LayoutBounds(es: seq<Entry>, names: seq<Bytes>, ino: nat)
    requires |es| == |names|
    ensures |es| <= |Layout(es, names, ino)|
    ensures forall e | e in es :: |e.data| <= |Layout(es, names, ino)|
    decreases |es|
  {
    if es != [] {
      LayoutBounds(es[1..], names[1..], ino + 1);
      RecordBounds(ino, es[0], names[0]);
      assert es == [es[0]] + es[1..];
    }
  }

  lemma {:induction false} RecordBounds(ino: nat, e: Entry, name: Bytes)
    ensures |Record(ino, e, name)| > |e.data|
  {
    hide HexFields;
  }

  /** Within the budget, every count and length is far below what a header field holds. */
  lemma {:induction false} BudgetBounds(es: seq<Entry>)
    requires Encoded(es).Success? && |Encoded(es).value| <= MAX_PAYLOAD
    ensures |es| + 1 < LIMIT && forall e | e in es :: |e.data| < LIMIT
  {
    hide Names, Layout;
    var all := es + [Trailer()];
    var names := Names(all, {}).value;
    LayoutBounds(all, names, 1);
    assert forall e | e in es :: e in all;
  }

  lemma {:induction false} DirectoriesFit(example: bool, backup: bool)
    ensures forall e | e in Directories(example, backup) :: Normal(e.name) && Fits(e)
  {
    hide SafeName, Ascii;
    DirectoryNames();
    PrivateNames();
  }

  lemma {:induction false} DirectoryNames()
    ensures Normal(Ascii("etc")) && Normal(Ascii("etc/config")) && Normal(Ascii("etc/dropbear"))
    ensures |Ascii("etc")| < 4096 && |Ascii("etc/config")| < 4096 && |Ascii("etc/dropbear")| < 4096
  {
    hide SafeName, Ascii;
    OneComponent("etc");
    TwoComponents("etc", "config");
    TwoComponents("etc", "dropbear");
    assert "etc" + "/" + "config" == "etc/config" && "etc" + "/" + "dropbear" == "etc/dropbear";
  }

  lemma {:induction false} PrivateNames()
    ensures Normal(Ascii("etc/crontabs")) && Normal(Ascii("root")) && Normal(Ascii("root/.ssh"))
    ensures |Ascii("etc/crontabs")| < 4096 && |Ascii("root")| < 4096 && |Ascii("root/.ssh")| < 4096
  {
    hide SafeName, Ascii;
    TwoComponents("etc", "crontabs");
    OneComponent("root");
    TwoComponents("root", ".ssh");
    assert "etc" + "/" + "crontabs" == "etc/crontabs" && "root" + "/" + ".ssh" == "root/.ssh";
  }

  predicate Word(s: string) {
    s != "" && s != "." && s != ".." && |s| < 100
    && forall c | c in s :: 32 < c as int < 128 && c != '/' && c != '\\'
  }

  lemma {:induction false} WordIsComponent(s: string)
    requires Word(s)
    ensures Component(Ascii(s))
  {
    var part := Ascii(s);
    assert forall i | 0 <= i < |s| :: s[i] in s && part[i] == s[i] as int;
    if |s| == 1 {
      assert s == [s[0]];
    } else if |s| == 2 {
      assert s == [s[0], s[1]];
    }
  }

  lemma {:induction false} OneComponent(s: string)
    requires Word(s)
    ensures Normal(Ascii(s)) && |Ascii(s)| < 4096
  {
    hide SafeName;
    WordIsComponent(s);
    JoinedIsNormal([Ascii(s)]);
  }

  lemma {:induction false} TwoComponents(s: string, t: string)
    requires Word(s) && Word(t)
    ensures forall c | c in s + "/" + t :: c as int < 128
    ensures Normal(Ascii(s + "/" + t)) && |Ascii(s + "/" + t)| < 4096
  {
    hide SafeName;
    WordIsComponent(s);
    WordIsComponent(t);
    var parts := [Ascii(s), Ascii(t)];
    assert parts[1..] == [Ascii(t)];
    assert Ascii(s + "/" + t) == Ascii(s) + [SLASH] + Ascii(t);
    JoinedIsNormal(parts);
  }

  // ----- who may read what

  /** Below one of the private directories, or the backup job's settings. */
  ghost predicate Guarded(name: Bytes) {
    || (exists rest :: name == Ascii("etc/dropbear") + [SLASH] + rest)
    || (exists rest :: name == Ascii("root/.ssh") + [SLASH] + rest)
    || (exists rest :: name == Ascii("etc/crontabs") + [SLASH] + rest)
    || name == Ascii("etc/config/ls420d-backup")
  }

  predicate PrivateFolder(name: Bytes) {
    name in {Ascii("etc/dropbear"), Ascii("etc/crontabs"), Ascii("root"), Ascii("root/.ssh")}
  }

  /**
    The permissions in the script's octal digits: a file is readable and writable for its owner and
    readable for others unless it is guarded; a directory may be entered by others unless it is private.
   */
  ghost predicate Permitted(e: Entry) {
    && e.uid == 0 && e.gid == 0 && e.rmajor == 0 && e.rminor == 0
    && if e.mode / 0x1000 == 8 then
         e.mode % 0x1000 == if Guarded(e.name) then 6 * 64 else 6 * 64 + 4 * 8 + 4
       else
         && e.mode / 0x1000 == 4 && e.data == []
         && e.mode % 0x1000 == if PrivateFolder(e.name) then 7 * 64 else 7 * 64 + 5 * 8 + 5
  }

  lemma {:induction false} Behind(folder: string, prefix: string, name: Bytes)
    requires (forall c | c in folder :: c as int < 128) && prefix == folder + "/"
    ensures forall c | c in prefix :: c as int < 128
    ensures Ascii(prefix) <= name <==> exists rest :: name == Ascii(folder) + [SLASH] + rest
  {
    assert Ascii(prefix) == Ascii(folder) + [SLASH];
    if Ascii(prefix) <= name {
      assert name == Ascii(folder) + [SLASH] + name[|prefix|..];
    }
  }

  lemma {:induction false} SecretIsGuarded(name: Bytes)
    ensures Secret(name) <==> Guarded(name)
  {
    hide Ascii;
    Behind("etc/dropbear", "etc/dropbear/", name);
    Behind("root/.ssh", "root/.ssh/", name);
    Behind("etc/crontabs", "etc/crontabs/", name);
  }

  lemma {:induction false} FileIsPermitted(f: File)
    ensures Permitted(FileEntry(f)) && FileEntry(f).mode / 0x1000 == 8
  {
    hide Ascii, Secret, Guarded, PrivateFolder;
    SecretIsGuarded(f.name);
  }

  lemma {:induction false} WhichFoldersArePrivate()
    ensures !PrivateFolder(Ascii("etc")) && !PrivateFolder(Ascii("etc/config"))
    ensures PrivateFolder(Ascii("etc/dropbear")) && PrivateFolder(Ascii("etc/crontabs"))
    ensures PrivateFolder(Ascii("root")) && PrivateFolder(Ascii("root/.ssh"))
  {
    assert |Ascii("etc")| == 3 && |Ascii("etc/config")| == 10 && |Ascii("root")| == 4;
    assert |Ascii("etc/dropbear")| == 12 && |Ascii("etc/crontabs")| == 12 && |Ascii("root/.ssh")| == 9;
    hide Ascii;
  }

  lemma {:induction false} FolderIsPermitted(name: string, mode: nat)
    requires forall c | c in name :: c as int < 128
    requires mode == if PrivateFolder(Ascii(name)) then PRIVATE_DIRECTORY else PUBLIC_DIRECTORY
    ensures Permitted(Directory(name, mode))
  {
    hide Ascii, PrivateFolder, Guarded;
  }

  lemma {:induction false} FoldersArePermitted(example: bool, backup: bool)
    ensures forall e | e in Directories(example, backup) :: Permitted(e)
  {
    hide Permitted, PrivateFolder, Directory, Ascii;
    WhichFoldersArePrivate();
    FolderIsPermitted("etc", PUBLIC_DIRECTORY);
    FolderIsPermitted("etc/config", PUBLIC_DIRECTORY);
    FolderIsPermitted("etc/dropbear", PRIVATE_DIRECTORY);
    FolderIsPermitted("etc/crontabs", PRIVATE_DIRECTORY);
    FolderIsPermitted("root", PRIVATE_DIRECTORY);
    FolderIsPermitted("root/.ssh", PRIVATE_DIRECTORY);
  }

  /** Every entry has its permissions, and every file is there under its name, with its content, as a file. */
  lemma {:induction false} EntriesArePermitted(files: seq<File>, example: bool, backup: bool)
    ensures forall e | e in Entries(files, example, backup) :: Permitted(e)
    ensures forall f | f in files ::
              exists e | e in Entries(files, example, backup) ::
                e.name == f.name && e.data == f.data && e.mode / 0x1000 == 8
  {
    hide Permitted, Directories, FileEntry;
    var es := Entries(files, example, backup);
    FoldersArePermitted(example, backup);
    forall e | e in es ensures Permitted(e) {
      if e in FileEntries(files) {
        var k :| 0 <= k < |files| && FileEntries(files)[k] == e;
        FileIsPermitted(files[k]);
      }
    }
    forall f | f in files ensures exists e | e in es :: e.name == f.name && e.data == f.data && e.mode / 0x1000 == 8 {
      var k :| 0 <= k < |files| && files[k] == f;
      FileIsPermitted(f);
      assert FileEntries(files)[k] in FileEntries(files) && FileEntries(files)[k] in es;
      SameNameAndData(f);
    }
  }

  lemma {:induction false} SameNameAndData(f: File)
    ensures FileEntry(f).name == f.name && FileEntry(f).data == f.data
  {
    hide Secret;
  }

  // ----- the names that a configuration gives rise to

  predicate Plain(s: string) {
    forall c | c in s :: c as int < 128
  }

  /** Kept as it is, and short enough to be read back. */
  predicate Usable(name: Bytes) {
    Normal(name) && |name| < 4096
  }

  type Parts = seq<string>

  /** The keys of the dictionary of files, by their components. */
  const SITE: seq<Parts> :=
    [["etc", "config", "dropbear"], ["etc", "config", "network"],
     ["etc", "ls420d-deployment"], ["etc", "ls420d-site.uci"]]
  const KEYS: seq<Parts> :=
    [["etc", "dropbear", "authorized_keys"], ["etc", "dropbear", "dropbear_ed25519_host_key"]]
  const JOB: seq<Parts> :=
    [["etc", "config", "fstab"], ["etc", "config", "ls420d-backup"], ["etc", "crontabs", "root"],
     ["root", ".ssh", "backup_ed25519"], ["root", ".ssh", "known_hosts"]]

  function FileNames(example: bool, backup: bool): seq<Parts> {
    SITE + (if example then [] else KEYS) + if backup then JOB else []
  }

  predicate IsName(name: Bytes, parts: Parts) {
    parts != [] && Plain(Join(parts, '/')) && name == Ascii(Join(parts, '/'))
  }

  /** Distinct names, all of them among those that the configuration can produce. */
  predicate Configured(files: seq<File>, example: bool, backup: bool) {
    && (forall f | f in files :: exists p | p in FileNames(example, backup) :: IsName(f.name, p))
    && (forall i, j | 0 <= i < j < |files| :: files[i].name != files[j].name)
  }

  predicate Wordy(parts: Parts) {
    parts != [] && |parts| <= 3 && forall s | s in parts :: Word(s)
  }

  /** Two or three components that make up more than the name of any directory of the list. */
  predicate FileParts(parts: Parts) {
    && Wordy(parts)
    && ((|parts| == 2 && |parts[0]| + |parts[1]| > 11) || (|parts| == 3 && |parts[0]| + |parts[1]| + |parts[2]| > 10))
  }

  lemma {:induction false} ShortWords()
    ensures Word("etc") && Word("config") && Word("dropbear") && Word("network") && Word("fstab")
    ensures Word("crontabs") && Word("root") && Word(".ssh")
  {
  }

  lemma {:induction false} LongWords()
    ensures Word("ls420d-backup") && Word("known_hosts") && Word("backup_ed25519")
  {
  }

  lemma {:induction false} LongerWords()
    ensures Word("ls420d-deployment") && Word("ls420d-site.uci") && Word("authorized_keys")
  {
  }

  lemma {:induction false} LongestWord()
    ensures Word("dropbear_ed25519_host_key")
  {
  }

  lemma {:induction false} AllFileNames(example: bool, backup: bool)
    ensures forall p | p in FileNames(example, backup) :: FileParts(p)
  {
    hide Word;
    ShortWords();
    LongWords();
    LongerWords();
    LongestWord();
  }

  function AllAscii(parts: Parts): (r: seq<Bytes>)
    requires forall s | s in parts :: Plain(s)
    ensures |r| == |parts| && forall i | 0 <= i < |r| :: Plain(parts[i]) && r[i] == Ascii(parts[i])
  {
    if parts == [] then []
    else
      assert parts[0] in parts && Plain(parts[0]);
      [Ascii(parts[0])] + AllAscii(parts[1..])
  }

  lemma {:induction false} JoinedAscii(parts: Parts)
    requires parts != [] && forall s | s in parts :: Plain(s)
    ensures Plain(Join(parts, '/')) && Ascii(Join(parts, '/')) == Join(AllAscii(parts), SLASH)
    decreases |parts|
  {
    hide Plain;
    assert parts[0] in parts && forall s | s in parts[1..] :: s in parts;
    if |parts| > 1 {
      JoinedAscii(parts[1..]);
      var rest := Join(parts[1..], '/');
      assert AllAscii(parts)[1..] == AllAscii(parts[1..]);
      AsciiConcat(parts[0], rest);
    }
  }

  lemma {:induction false} WordIsPlain(s: string)
    requires Word(s)
    ensures Plain(s)
  {
  }

  lemma {:induction false} AsciiConcat(s: string, t: string)
    requires Plain(s) && Plain(t)
    ensures Plain(s + ['/'] + t) && Ascii(s + ['/'] + t) == Ascii(s) + [SLASH] + Ascii(t)
  {
    assert Plain(s + ['/'] + t);
    var a, b := Ascii(s + ['/'] + t), Ascii(s) + [SLASH] + Ascii(t);
    assert forall i | 0 <= i < |a| :: a[i] == b[i];
  }

  lemma {:induction false} JoinedLength(parts: Parts)
    requires FileParts(parts)
    ensures 12 < |Join(parts, '/')| < 400
  {
    assert parts[0] in parts && parts[1] in parts;
    if |parts| == 3 {
      assert parts[2] in parts;
      assert Join(parts[1..], '/') == parts[1] + ['/'] + Join(parts[1..][1..], '/');
    }
  }

  lemma {:induction false} FileIsUsable(f: File, example: bool, backup: bool)
    requires exists p | p in FileNames(example, backup) :: IsName(f.name, p)
    ensures Usable(f.name) && |f.name| > 12 && ValidUtf8(f.name) && f.name != TRAILER
  {
    hide SafeName, FileNames, ValidUtf8, Word;
    AllFileNames(example, backup);
    var p :| p in FileNames(example, backup) && IsName(f.name, p);
    forall s | s in p ensures Plain(s) {
      WordIsPlain(s);
    }
    JoinedAscii(p);
    JoinedLength(p);
    forall c | c in AllAscii(p) ensures Component(c) {
      var i :| 0 <= i < |p| && AllAscii(p)[i] == c;
      WordIsComponent(p[i]);
    }
    JoinedIsNormal(AllAscii(p));
    PlainIsUtf8(Join(p, '/'));
  }

  lemma {:induction false} PlainIsUtf8(s: string)
    requires Plain(s)
    ensures ValidUtf8(Ascii(s))
  {
    hide ValidUtf8;
    forall b | b in Ascii(s) ensures b <= 0x7F {
      var i :| 0 <= i < |s| && Ascii(s)[i] == b;
      assert s[i] in s;
    }
    AsciiIsUtf8(Ascii(s));
  }

  /** What the directories' names have that the files' have not is that they are short. */
  predicate IsDirectory(name: Bytes) {
    Usable(name) && |name| <= 12 && ValidUtf8(name) && name != TRAILER
  }

  lemma {:induction false} DirectoryName(s: string)
    requires Plain(s) && Usable(Ascii(s)) && 0 < |s| <= 12 && s[0] != 'T'
    ensures IsDirectory(Ascii(s))
  {
    hide SafeName, ValidUtf8;
    PlainIsUtf8(s);
    assert Ascii(s)[0] == s[0] as int;
  }

  lemma {:induction false} DirectoriesAreUsable(example: bool, backup: bool)
    ensures forall e | e in Directories(example, backup) :: IsDirectory(e.name)
  {
    hide SafeName, Ascii, IsDirectory;
    DirectoryNames();
    PrivateNames();
    DirectoryName("etc");
    DirectoryName("etc/config");
    DirectoryName("etc/dropbear");
    DirectoryName("etc/crontabs");
    DirectoryName("root");
    DirectoryName("root/.ssh");
  }

  lemma {:induction false} DirectoriesAreDistinct(example: bool, backup: bool)
    ensures var d := Directories(example, backup); forall i, j | 0 <= i < j < |d| :: d[i].name != d[j].name
  {
    assert Ascii("etc/dropbear")[4] == 'd' as int && Ascii("etc/crontabs")[4] == 'c' as int;
    assert |Ascii("etc")| == 3 && |Ascii("etc/config")| == 10 && |Ascii("etc/dropbear")| == 12;
    assert |Ascii("etc/crontabs")| == 12 && |Ascii("root")| == 4 && |Ascii("root/.ssh")| == 9;
    hide Ascii;
  }

  // ----- every directory comes before what is in it

  /** The components of the directories, in their order. */
  function Folders(example: bool, backup: bool): seq<Parts> {
    [["etc"], ["etc", "config"]] + (if example then [] else [["etc", "dropbear"]])
    + if backup then [["etc", "crontabs"], ["root"], ["root", ".ssh"]] else []
  }

  lemma {:induction false} TopNames()
    ensures IsName(Ascii("etc"), ["etc"]) && IsName(Ascii("root"), ["root"])
  {
    hide Ascii, IsName;
    OneName("etc");
    OneName("root");
  }

  lemma {:induction false} PublicNames()
    ensures IsName(Ascii("etc/config"), ["etc", "config"]) && IsName(Ascii("etc/dropbear"), ["etc", "dropbear"])
  {
    hide Ascii, IsName;
    TwoNames("etc", "config", "etc/config");
    TwoNames("etc", "dropbear", "etc/dropbear");
  }

  lemma {:induction false} JobNames()
    ensures IsName(Ascii("etc/crontabs"), ["etc", "crontabs"]) && IsName(Ascii("root/.ssh"), ["root", ".ssh"])
  {
    hide Ascii, IsName;
    TwoNames("etc", "crontabs", "etc/crontabs");
    TwoNames("root", ".ssh", "root/.ssh");
  }

  lemma {:induction false} OneName(s: string)
    requires Plain(s)
    ensures IsName(Ascii(s), [s])
  {
    hide Ascii;
    assert Join([s], '/') == s;
  }

  lemma {:induction false} TwoNames(s: string, t: string, name: string)
    requires name == s + "/" + t && Plain(name)
    ensures IsName(Ascii(name), [s, t])
  {
    hide Ascii;
    assert [s, t][1..] == [t];
    assert Join([s, t], '/') == name;
  }

  lemma {:induction false} DirectoriesAreFolders(example: bool, backup: bool)
    ensures var d, p := Directories(example, backup), Folders(example, backup);
            |d| == |p| && forall i | 0 <= i < |d| :: IsName(d[i].name, p[i]) && d[i].mode / 0x1000 == 4
  {
    hide Ascii, IsName;
    TopNames();
    PublicNames();
    JobNames();
  }

  function Parent(p: Parts): Parts {
    if p == [] then [] else p[..|p| - 1]
  }

  lemma {:induction false} ParentOfTwo(a: string, b: string)
    ensures Parent([a, b]) == [a]
  {
  }

  lemma {:induction false} ParentOfThree(a: string, b: string, c: string)
    ensures Parent([a, b, c]) == [a, b]
  {
  }

  /** Every path has the one it lies in before it. */
  predicate ParentsFirst(paths: seq<Parts>) {
    forall i | 0 <= i < |paths| && |paths[i]| > 1 :: Parent(paths[i]) in paths[..i]
  }

  lemma {:induction false} FoldersComeFirst(example: bool, backup: bool)
    ensures ParentsFirst(Folders(example, backup))
  {
    hide Parent;
    ParentOfTwo("etc", "config");
    ParentOfTwo("etc", "dropbear");
    ParentOfTwo("etc", "crontabs");
    ParentOfTwo("root", ".ssh");
    var paths := Folders(example, backup);
    forall i | 0 <= i < |paths| && |paths[i]| > 1 ensures Parent(paths[i]) in paths[..i] {
      assert paths[..i][0] == ["etc"];
      if paths[i] == ["root", ".ssh"] {
        assert paths[..i][i - 1] == ["root"];
      }
    }
  }

  lemma {:induction false} SiteFolders()
    ensures forall p | p in SITE :: |p| > 1 && (Parent(p) == ["etc", "config"] || Parent(p) == ["etc"])
  {
    hide Parent;
    ParentOfThree("etc", "config", "dropbear");
    ParentOfThree("etc", "config", "network");
    ParentOfTwo("etc", "ls420d-deployment");
    ParentOfTwo("etc", "ls420d-site.uci");
  }

  lemma {:induction false} KeyFolders()
    ensures forall p | p in KEYS :: |p| > 1 && Parent(p) == ["etc", "dropbear"]
  {
    hide Parent;
    ParentOfThree("etc", "dropbear", "authorized_keys");
    ParentOfThree("etc", "dropbear", "dropbear_ed25519_host_key");
  }

  lemma {:induction false} JobFolders()
    ensures forall p | p in JOB :: |p| > 1 &&
              (Parent(p) == ["etc", "config"] || Parent(p) == ["etc", "crontabs"] || Parent(p) == ["root", ".ssh"])
  {
    hide Parent;
    ParentOfThree("etc", "config", "fstab");
    ParentOfThree("etc", "config", "ls420d-backup");
    ParentOfThree("etc", "crontabs", "root");
    SshFolders();
  }

  lemma {:induction false} SshFolders()
    ensures Parent(["root", ".ssh", "backup_ed25519"]) == ["root", ".ssh"]
    ensures Parent(["root", ".ssh", "known_hosts"]) == ["root", ".ssh"]
  {
    hide Parent;
    ParentOfThree("root", ".ssh", "backup_ed25519");
    ParentOfThree("root", ".ssh", "known_hosts");
  }

  lemma {:induction false} FilesHaveFolders(example: bool, backup: bool)
    ensures forall p | p in FileNames(example, backup) :: |p| > 1 && Parent(p) in Folders(example, backup)
  {
    hide Parent, SITE, KEYS, JOB;
    SiteFolders();
    KeyFolders();
    JobFolders();
    assert ["etc"] in Folders(example, backup) && ["etc", "config"] in Folders(example, backup);
  }

  /** The entry at `i` is a directory, and its path is the one given. */
  predicate FolderAt(es: seq<Entry>, i: nat, p: Parts) {
    i < |es| && es[i].mode / 0x1000 == 4 && IsName(es[i].name, p)
  }

  /**
    With the names that a configuration gives rise to, an archive can be unpacked as it comes: every
    entry lies at the top, or in a directory whose entry comes before it.
   */
  lemma {:induction false} FoldersBeforeContents(files: seq<File>, example: bool, backup: bool, i: nat)
    requires Configured(files, example, backup) && i < |Entries(files, example, backup)|
    ensures var es := Entries(files, example, backup);
            exists p :: IsName(es[i].name, p) &&
              (|p| == 1 || exists j: nat :: j < i && FolderAt(es, j, Parent(p)))
  {
    hide Directories, FileNames, Folders, IsName, Parent;
    var es, dirs, paths := Entries(files, example, backup), Directories(example, backup), Folders(example, backup);
    DirectoriesAreFolders(example, backup);
    if i < |dirs| {
      FoldersComeFirst(example, backup);
      if |paths[i]| != 1 {
        assert |paths[i]| > 1 by { NamesAreLong(es[i].name, paths[i]); }
        var j: nat :| j < i && paths[..i][j] == Parent(paths[i]);
        assert FolderAt(es, j, Parent(paths[i]));
      }
    } else {
      var f := files[i - |dirs|];
      assert es[i] == FileEntry(f) && f in files;
      SameNameAndData(f);
      FilesHaveFolders(example, backup);
      var p :| p in FileNames(example, backup) && IsName(f.name, p);
      var j: nat :| j < |paths| && paths[j] == Parent(p);
      assert FolderAt(es, j, Parent(p));
    }
  }

  lemma {:induction false} NamesAreLong(name: Bytes, p: Parts)
    requires IsName(name, p)
    ensures |p| > 0
  {
  }

  /** Whatever the configuration, every entry can be encoded and read back. */
  lemma {:induction false} ConfiguredIsEncodable(files: seq<File>, example: bool, backup: bool)
    requires Configured(files, example, backup)
    ensures Encodable(Entries(files, example, backup)) && Storable(files)
  {
    hide SafeName, ValidUtf8, FileNames, Directories, IsName;
    var dirs, es := Directories(example, backup), Entries(files, example, backup);
    DirectoriesAreUsable(example, backup);
    DirectoriesAreDistinct(example, backup);
    forall f | f in files ensures Usable(f.name) && |f.name| > 12 && ValidUtf8(f.name) && f.name != TRAILER {
      FileIsUsable(f, example, backup);
    }
    forall i | 0 <= i < |es|
      ensures Named(es[i]) && Clean(es[i].name) == es[i].name && (|es[i].name| > 12 <==> i >= |dirs|)
    {
      if i < |dirs| {
        assert es[i] in dirs;
      } else {
        assert es[i] == FileEntry(files[i - |dirs|]) && files[i - |dirs|] in files;
      }
    }
    forall i, j | 0 <= i < j < |es| ensures Clean(es[i].name) != Clean(es[j].name) {
      if j < |dirs| {
        assert dirs[i].name != dirs[j].name;
      } else if i >= |dirs| {
        assert files[i - |dirs|].name != files[j - |dirs|].name;
      }
    }
  }

  lemma {:induction false} EntriesFit(files: seq<File>, example: bool, backup: bool)
    requires var es := Entries(files, example, backup);
             Encoded(es).Success? && |Encoded(es).value| <= MAX_PAYLOAD
    ensures var es := Entries(files, example, backup);
            && |es| + 1 < LIMIT && Encodable(es)
            && ((forall e | e in es :: Normal(e.name) && Fits(e)) <==> Storable(files))
  {
    hide Encoded, SafeName, Ascii, Directories;
    var es := Entries(files, example, backup);
    BudgetBounds(es);
    EncodeSucceeds(es);
    DirectoriesFit(example, backup);
    assert forall e | e in es :: e in Directories(example, backup) || e in FileEntries(files);
    forall f | f in files ensures FileEntry(f) in es {
      var k :| 0 <= k < |files| && files[k] == f;
      assert FileEntries(files)[k] == FileEntry(f) && FileEntries(files)[k] in FileEntries(files);
    }
    if Storable(files) {
      forall e | e in es ensures Normal(e.name) && Fits(e) {
        if e in FileEntries(files) {
          var k :| 0 <= k < |files| && FileEntries(files)[k] == e;
          assert files[k] in files;
        }
      }
    }
  }

  /**
    What building an image amounts to. The self-check can only fail when some file's name is
    not normal or is too long to be read back; with the names that a configuration gives rise to,
    nothing can fail but the size bound.
   */
  method Image(files: seq<File>, example: bool, backup: bool) returns (r: Result<Bytes, ImageError>)
    ensures var es := Entries(files, example, backup);
      match r
      case Failure(Refused(e)) => Encoded(es) == Failure(e)
      case Failure(OverBudget) => Encoded(es).Success? && |Encoded(es).value| > 0x10_0000
      case Failure(RoundTripMismatch) =>
        Encoded(es).Success? && |Encoded(es).value| <= 0x10_0000 && !Storable(files)
      case Success(blob) =>
        && Encoded(es).Success? && |Encoded(es).value| <= 0x10_0000 && Storable(files)
        && Ramdisk.Unwrap(blob) == Success(Encoded(es).value)
        && Decoded(Encoded(es).value, 0).Success? && Decoded(Encoded(es).value, 0).value.0 == es
        && forall e | e in Decoded(Encoded(es).value, 0).value.0 :: Permitted(e)
    ensures Configured(files, example, backup) ==> r.Success? || r == Failure(OverBudget)
  {
    hide Encoded, Decoded, Entries, Ramdisk.Wrap, Ramdisk.Unwrap, Storable, Configured, Encodable, Permitted;
    EntriesArePermitted(files, example, backup);
    if Configured(files, example, backup) {
      ConfiguredIsEncodable(files, example, backup);
      EncodeSucceeds(Entries(files, example, backup));
    }
    var entries := BuildEntries(files, example, backup);
    var payload := Encode(entries);
    if payload.Failure? {
      return Failure(Refused(payload.error));
    }
    if |payload.value| > MAX_PAYLOAD {
      return Failure(OverBudget);
    }
    CheckDecides(files, example, backup);
    Ramdisk.WrapThenUnwrap(payload.value);
    var result := Ramdisk.Wrap(payload.value);
    var unwrapped := Ramdisk.Unwrap(result.value);
    var back := Decode(unwrapped.value, 0);
    if back.Failure? || back.value.0 != entries {
      return Failure(RoundTripMismatch);
    }
    return Success(result.value);
  }

  method BuildEntries(files: seq<File>, example: bool, backup: bool) returns (entries: seq<Entry>)
    ensures entries == Entries(files, example, backup)
  {
    hide Ascii, Secret;
    entries := [Directory("etc", PUBLIC_DIRECTORY), Directory("etc/config", PUBLIC_DIRECTORY)];
    if !example {
      entries := entries + [Directory("etc/dropbear", PRIVATE_DIRECTORY)];
    }
    if backup {
      entries := entries + [Directory("etc/crontabs", PRIVATE_DIRECTORY), Directory("root", PRIVATE_DIRECTORY),
                            Directory("root/.ssh", PRIVATE_DIRECTORY)];
    }
    entries := entries + FileEntries(files);
  }

  lemma {:induction false} CheckDecides(files: seq<File>, example: bool, backup: bool)
    requires var es := Entries(files, example, backup);
             Encoded(es).Success? && |Encoded(es).value| <= MAX_PAYLOAD
    ensures var es := Entries(files, example, backup);
            var back := Decoded(Encoded(es).value, 0);
            back.Success? && back.value.0 == es <==> Storable(files)
  {
    hide Encoded, DecodedFrom, SafeName, Entries;
    var es := Entries(files, example, backup);
    var archive := Encoded(es).value;
    var back := Decoded(archive, 0);
    EntriesFit(files, example, backup);
    assert [] + archive + [] == archive;
    if Storable(files) {
      var end := EncodeThenDecode(es, [], []);
      NormalizedAlready(es);
    } else if back.Success? && back.value.0 == es {
      DecodedIsCanonical(archive, 0, 0, {});
    }
  }
}
