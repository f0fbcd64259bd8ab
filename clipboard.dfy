/** src/utils/clipboardManager.ts: putting a text on the clipboard, once from
    the application itself (`copy`) and once from inside a generated script
    (the helper source that `getMinifiedCode` returns). What the browser does
    (is the asynchronous clipboard interface there, does its promise reject,
    what does `execCommand('copy')` do) is a parameter. */
module ClipboardManager {

  /** `getMinifiedCode()` (line 4): the script helpers `f`, which uses the
      clipboard interface when it is there and falls back to `g`, and `g`,
      which copies through a hidden textarea and `execCommand('copy')`. */
  const MinifiedCode: string :=
    "var f=function(t){try{" +
    "if(navigator.clipboard&&window.isSecureContext){" +
    "navigator.clipboard.writeText(t).then(function()" +
    "{console.log('✅已复制到剪贴板')}).catch(function(){" +
    "console.warn('剪贴板API失败，使用备用方法');g(t)})}else{g(t)" +
    "}}catch(e){console.warn('剪贴板操作失败:',e.message);" +
    "g(t)}};var g=function(t){try{" +
    "var a=document.createElement('textarea');" +
    "a.value=t;a.style.cssText='position:fixed;" +
    "left:-9999px;top:-9999px;opacity:0';" +
    "document.body.appendChild(a);a.focus();" +
    "a.select();var s=document.execCommand('copy');" +
    "document.body.removeChild(a);if(s){" +
    "console.log('✅已复制到剪贴板(备用方法)')}else{" +
    "console.error('❌复制失败，请手动复制');" +
    "console.log('代码内容:',t)}}catch(e){" +
    "console.error('❌复制失败:',e.message);" +
    "console.log('请手动复制以下代码:');console.log(t)}};"

  /** What `document.execCommand('copy')` does. */
  datatype ExecOutcome = Copied | Refused | Threw

  /** The browser's answers to a copy attempt. */
  datatype Env = Env(
    clipboardApi: bool,      // `navigator.clipboard` exists
    secureContext: bool,     // `window.isSecureContext`
    writeTextRejects: bool,  // the promise of `writeText` rejects
    exec: ExecOutcome,       // the fallback's `execCommand('copy')`
    downloadThrows: bool)    // building a file download throws

  /** Where a copy attempt leaves the text. */
  datatype Delivery =
    | ClipboardApi   // `navigator.clipboard.writeText` took it
    | ExecCommand    // `execCommand('copy')` took it
    | ManualDialog   // shown in a dialog for the user to copy by hand
    | ConsoleLog     // printed to the console for the user to copy by hand
    | FileDownload   // offered as a text file download
    | Nowhere        // dropped: nothing holds it

  /** The text ended up on the clipboard. */
  predicate OnClipboard(d: Delivery) {
    d == ClipboardApi || d == ExecCommand
  }

  /** The clipboard interface is usable and its promise fulfils. */
  predicate ApiCopies(env: Env) {
    env.clipboardApi && env.secureContext && !env.writeTextRejects
  }

  /** `copy(text)` (lines 7-40): the clipboard interface in a secure context,
      otherwise (or when its promise rejects) the textarea fallback; a throw
      in the fallback opens the manual-copy dialog, a refusal drops the text. */
  function CopyRoute(env: Env): (r: Delivery)
    ensures OnClipboard(r) <==> ApiCopies(env) || env.exec == Copied
    ensures r == Nowhere <==> !ApiCopies(env) && env.exec == Refused
    ensures r != ConsoleLog && r != FileDownload
  {
    if ApiCopies(env) then ClipboardApi
    else
      match env.exec
      case Copied => ExecCommand
      case Refused => Nowhere
      case Threw => ManualDialog
  }

  /** The helpers of `MinifiedCode` run as `f(t)`: the same two attempts, and
      when both fail the text is printed to the console. */
  function MinifiedRoute(env: Env): (r: Delivery)
    ensures OnClipboard(r) <==> ApiCopies(env) || env.exec == Copied
    ensures !OnClipboard(r) ==> r == ConsoleLog
  {
    if ApiCopies(env) then ClipboardApi
    else if env.exec == Copied then ExecCommand
    else ConsoleLog
  }

  /** `copy` and the in-script helpers reach the clipboard in exactly the same
      browsers; only `copy` can drop the text, and only when `execCommand`
      refuses. */
  lemma CopyAndHelpersAgree(env: Env)
    ensures OnClipboard(CopyRoute(env)) == OnClipboard(MinifiedRoute(env))
    ensures MinifiedRoute(env) != Nowhere
    ensures CopyRoute(env) == Nowhere <==> MinifiedRoute(env) == ConsoleLog && env.exec == Refused
  {
  }

  /** What the page's body holds that the copy code adds. */
  datatype Element =
    | HiddenTextArea(value: string)    // off-screen textarea of the fallback
    | ManualCopyDialog(markup: string)  // the dialog, with the text its markup was built from
    | Other                            // anything the page had already

  /** The document a copy works on: its body's children and the clipboard. */
  class Document {
    var body: seq<Element>
    var clipboard: string

    constructor(body: seq<Element>, clipboard: string)
      ensures this.body == body && this.clipboard == clipboard
    {
      this.body := body;
      this.clipboard := clipboard;
    }

    /** `showManualCopyDialog(text)` (lines 42-75): a dialog whose markup was
        built around the text is appended to the body. The element keeps the
        text as it went into `innerHTML`; what the browser's HTML parser
        then shows in the textarea is not modelled. */
    method ShowManualCopyDialog(text: string)
      modifies this
      ensures body == old(body) + [ManualCopyDialog(text)]
      ensures clipboard == old(clipboard)
    {
      body := body + [ManualCopyDialog(text)];
    }

    /** `fallbackCopy(text)` (lines 23-40): the textarea is appended, then
        `execCommand('copy')`; when that throws, `removeChild` is skipped, so
        the textarea stays in the body beside the dialog. */
    method FallbackCopy(text: string, exec: ExecOutcome) returns (ok: bool)
      modifies this
      ensures ok <==> exec == Copied
      ensures clipboard == if ok then text else old(clipboard)
      ensures body == if exec == Threw then old(body) + [HiddenTextArea(text), ManualCopyDialog(text)] else old(body)
    {
      body := body + [HiddenTextArea(text)];
      if exec == Threw {
        ShowManualCopyDialog(text);
        return false;
      }
      if exec == Copied {
        clipboard := text;
      }
      body := body[..|body| - 1];
      ok := exec == Copied;
    }

    /** `copy(text)` (lines 7-21). */
    method Copy(text: string, env: Env) returns (ok: bool)
      modifies this
      ensures ok == OnClipboard(CopyRoute(env))
      ensures clipboard == if ok then text else old(clipboard)
      ensures body == if CopyRoute(env) == ManualDialog
        then old(body) + [HiddenTextArea(text), ManualCopyDialog(text)] else old(body)
    {
      if env.clipboardApi && env.secureContext {
        if !env.writeTextRejects {
          clipboard := text;
          return true;
        }
      }
      ok := FallbackCopy(text, env.exec);
    }
  }
}
