/** lib/Scorpion/Context.cpp: an SSL context that is built on first use, shared by copies, and
    dropped when a setting changes. What OpenSSL builds is represented by the settings it was
    built from. */
module Context {
  import opened Bytes

  datatype Settings = Settings(
    flags: int, passwordGetter: nat, serverCertificateName: string, certificateChainFilename: string,
    privateKeyFilename: string, trustedCaCertificatesFilename: string,
    trustedCaCertificatesDirectoryName: string, certificateVerificationDepth: nat)

  /** What a setter changes. */
  datatype Change =
    | Flags(flags: int)
    | PasswordGetter(getter: nat)
    | ServerCertificate(path: string)
    | CertificateChain(path: string)
    | PrivateKey(path: string)
    | TrustedCaCertificates(path: string)
    | TrustedCaDirectory(path: string)
    | VerificationDepth(depth: nat)

  function Changed(s: Settings, change: Change): Settings {
    match change
    case Flags(flags) => s.(flags := flags)
    case PasswordGetter(getter) => s.(passwordGetter := getter)
    case ServerCertificate(path) => s.(serverCertificateName := path)
    case CertificateChain(path) => s.(certificateChainFilename := path)
    case PrivateKey(path) => s.(privateKeyFilename := path)
    case TrustedCaCertificates(path) => s.(trustedCaCertificatesFilename := path)
    case TrustedCaDirectory(path) => s.(trustedCaCertificatesDirectoryName := path)
    case VerificationDepth(depth) => s.(certificateVerificationDepth := depth)
  }

  function Fresh(flags: int, depth: nat): Settings { Settings(flags, 0, "", "", "", "", "", depth) }

  /** Which setting a setter is for. */
  function Kind(change: Change): nat {
    match change
    case Flags(_) => 0
    case PasswordGetter(_) => 1
    case ServerCertificate(_) => 2
    case CertificateChain(_) => 3
    case PrivateKey(_) => 4
    case TrustedCaCertificates(_) => 5
    case TrustedCaDirectory(_) => 6
    case VerificationDepth(_) => 7
  }

  /** A setting is what it was set to last, and setters of different settings do not interfere. */
  lemma SettersAreIndependent(s: Settings, a: Change, b: Change)
    ensures Changed(s, Flags(s.flags)) == Changed(s, PasswordGetter(s.passwordGetter)) == s
    ensures Changed(s, ServerCertificate(s.serverCertificateName)) == s
    ensures Changed(s, CertificateChain(s.certificateChainFilename)) == s
    ensures Changed(s, PrivateKey(s.privateKeyFilename)) == s
    ensures Changed(s, TrustedCaCertificates(s.trustedCaCertificatesFilename)) == s
    ensures Changed(s, TrustedCaDirectory(s.trustedCaCertificatesDirectoryName)) == s
    ensures Changed(s, VerificationDepth(s.certificateVerificationDepth)) == s
    ensures Kind(a) == Kind(b) ==> Changed(Changed(s, a), b) == Changed(s, b)
    ensures Kind(a) != Kind(b) ==> Changed(Changed(s, a), b) == Changed(Changed(s, b), a)
  {
  }

  lemma SettingsAreRead(s: Settings, n: int, path: string, depth: nat)
    ensures Changed(s, Flags(n)).flags == n && Changed(s, PasswordGetter(depth)).passwordGetter == depth
    ensures Changed(s, ServerCertificate(path)).serverCertificateName == path
    ensures Changed(s, CertificateChain(path)).certificateChainFilename == path
    ensures Changed(s, PrivateKey(path)).privateKeyFilename == path
    ensures Changed(s, TrustedCaCertificates(path)).trustedCaCertificatesFilename == path
    ensures Changed(s, TrustedCaDirectory(path)).trustedCaCertificatesDirectoryName == path
    ensures Changed(s, VerificationDepth(depth)).certificateVerificationDepth == depth
  {
  }

  /** The shared pointer to an SSL_CTX pointer: nothing, or what was built. */
  class Cell {
    var built: Option<Settings>

    constructor ()
      ensures built == None
    {
      built := None;
    }
  }

  class Context {
    var flags: int
    var cell: Cell
    var passwordGetter: nat
    var serverCertificateName: string
    var certificateChainFilename: string
    var privateKeyFilename: string
    var trustedCaCertificatesFilename: string
    var trustedCaCertificatesDirectoryName: string
    var certificateVerificationDepth: nat

    function Current(): Settings
      reads this
    {
      Settings(flags, passwordGetter, serverCertificateName, certificateChainFilename, privateKeyFilename,
               trustedCaCertificatesFilename, trustedCaCertificatesDirectoryName, certificateVerificationDepth)
    }

    constructor (flags: int, certificateVerificationDepth: nat)
      ensures fresh(cell) && cell.built == None
      ensures Current() == Settings(flags, 0, "", "", "", "", "", certificateVerificationDepth)
    {
      this.flags := flags;
      cell := new Cell();
      passwordGetter := 0;
      serverCertificateName, certificateChainFilename, privateKeyFilename := "", "", "";
      trustedCaCertificatesFilename, trustedCaCertificatesDirectoryName := "", "";
      this.certificateVerificationDepth := certificateVerificationDepth;
    }

    constructor Copy(context: Context)
      ensures cell == context.cell && Current() == context.Current()
    {
      flags := context.flags;
      serverCertificateName := context.serverCertificateName;
      cell := context.cell;
      passwordGetter := context.passwordGetter;
      certificateChainFilename := context.certificateChainFilename;
      privateKeyFilename := context.privateKeyFilename;
      trustedCaCertificatesFilename := context.trustedCaCertificatesFilename;
      trustedCaCertificatesDirectoryName := context.trustedCaCertificatesDirectoryName;
      certificateVerificationDepth := context.certificateVerificationDepth;
    }

    method Swap(context: Context)
      modifies this, context
      ensures Current() == old(context.Current()) && cell == old(context.cell)
      ensures context.Current() == old(Current()) && context.cell == old(cell)
    {
      var itsFlags := context.flags;
      context.flags := flags;
      flags := itsFlags;
      var itsServerCertificateName := context.serverCertificateName;
      context.serverCertificateName := serverCertificateName;
      serverCertificateName := itsServerCertificateName;
      var itsCell := context.cell;
      context.cell := cell;
      cell := itsCell;
      var itsPasswordGetter := context.passwordGetter;
      context.passwordGetter := passwordGetter;
      passwordGetter := itsPasswordGetter;
      var itsCertificateChainFilename := context.certificateChainFilename;
      context.certificateChainFilename := certificateChainFilename;
      certificateChainFilename := itsCertificateChainFilename;
      var itsPrivateKeyFilename := context.privateKeyFilename;
      context.privateKeyFilename := privateKeyFilename;
      privateKeyFilename := itsPrivateKeyFilename;
      var itsTrustedCaCertificatesFilename := context.trustedCaCertificatesFilename;
      context.trustedCaCertificatesFilename := trustedCaCertificatesFilename;
      trustedCaCertificatesFilename := itsTrustedCaCertificatesFilename;
      var itsTrustedCaCertificatesDirectoryName := context.trustedCaCertificatesDirectoryName;
      context.trustedCaCertificatesDirectoryName := trustedCaCertificatesDirectoryName;
      trustedCaCertificatesDirectoryName := itsTrustedCaCertificatesDirectoryName;
      var itsCertificateVerificationDepth := context.certificateVerificationDepth;
      context.certificateVerificationDepth := certificateVerificationDepth;
      certificateVerificationDepth := itsCertificateVerificationDepth;
    }

    /** The cell is dropped only when something was built in it. */
    twostate predicate DroppedWhenBuilt()
      reads this, cell
    {
      if old(cell.built).Some? then fresh(cell) && cell.built == None else cell == old(cell)
    }

    method CopyOnWrite()
      modifies this`cell
      ensures DroppedWhenBuilt()
    {
      if cell.built.Some? {
        cell := new Cell();
      }
    }

    /** The cell is filled on the first call, from the settings of whoever calls. */
    method GetContext() returns (context: Settings)
      modifies cell
      ensures context == if old(cell.built).Some? then old(cell.built).value else Current()
      ensures cell.built == Some(context)
    {
      if cell.built.None? {
        cell.built := Some(Current());
      }
      return cell.built.value;
    }

    method SetServerCertificateFilename(path: string)
      modifies this
      ensures Current() == old(Current()).(serverCertificateName := path) && DroppedWhenBuilt()
    {
      CopyOnWrite();
      serverCertificateName := path;
    }

    method SetCertificateChainFilename(path: string)
      modifies this
      ensures Current() == old(Current()).(certificateChainFilename := path) && DroppedWhenBuilt()
    {
      CopyOnWrite();
      certificateChainFilename := path;
    }

    method SetTrustedCACertificatesFilename(path: string)
      modifies this
      ensures Current() == old(Current()).(trustedCaCertificatesFilename := path) && DroppedWhenBuilt()
    {
      CopyOnWrite();
      trustedCaCertificatesFilename := path;
    }

    method SetTrustedCACertificatesDirectoryName(path: string)
      modifies this
      ensures Current() == old(Current()).(trustedCaCertificatesDirectoryName := path) && DroppedWhenBuilt()
    {
      CopyOnWrite();
      trustedCaCertificatesDirectoryName := path;
    }

    method SetPrivateKeyFilename(path: string)
      modifies this
      ensures Current() == old(Current()).(privateKeyFilename := path) && DroppedWhenBuilt()
    {
      CopyOnWrite();
      privateKeyFilename := path;
    }

    method SetFlags(flags: int)
      modifies this
      ensures Current() == old(Current()).(flags := flags) && DroppedWhenBuilt()
    {
      CopyOnWrite();
      this.flags := flags;
    }

    method SetPasswordGetter(getter: nat)
      modifies this
      ensures Current() == old(Current()).(passwordGetter := getter) && DroppedWhenBuilt()
    {
      CopyOnWrite();
      passwordGetter := getter;
    }

    method SetCertificateVerificationDepth(depth: nat)
      modifies this
      ensures Current() == old(Current()).(certificateVerificationDepth := depth) && DroppedWhenBuilt()
    {
      CopyOnWrite();
      certificateVerificationDepth := depth;
    }
  }
}
