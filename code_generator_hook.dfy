/** src/hooks/useCodeGenerator.ts: the hook the page generates bookmarklets
    with. Its scripts are template literals: the configuration's source and
    key are put in as they are, with no escaping, and a missing key becomes
    the text "undefined". The script copies code B with its own helpers `f`,
    `g` and `h`, which end in a file download rather than on the console. */
module CodeGeneratorHook {
  import opened Wrappers
  import opened Types
  import opened Text
  import ClipboardManager
  import CodeGenerator
  import History
  import Presets

  // ---------------------------------------------------------------------------
  // The script

  /** `clipboardCode` (line 28): `f` tries the clipboard interface, `g` the
      textarea and `execCommand('copy')`, `h` a text file download; when even
      that throws, the text is printed to the console. */
  const HookClipboardCode: string :=
    "var f=function(t){try{" +
    "if(navigator.clipboard&&window.isSecureContext){" +
    "navigator.clipboard.writeText(t).then(function()" +
    "{console.log('✅已复制到剪贴板')}).catch(function(){" +
    "console.warn('剪贴板失败，正在生成文件下载');g(t)})}else{" +
    "console.warn('浏览器不支持剪贴板API，正在生成文件下载');g(t)}}" +
    "catch(e){console.warn('剪贴板操作失败:',e.message," +
    "'正在生成文件下载');g(t)}};var g=function(t){try{" +
    "var a=document.createElement('textarea');" +
    "a.value=t;a.style.cssText='position:fixed;" +
    "left:-9999px;top:-9999px;opacity:0';" +
    "document.body.appendChild(a);a.focus();" +
    "a.select();var s=document.execCommand('copy');" +
    "document.body.removeChild(a);if(s){" +
    "console.log('✅已复制到剪贴板(备用方法)')}else{h(t)}}" +
    "catch(e){console.warn('备用复制方法失败:',e.message);" +
    "h(t)}};var h=function(t){try{" +
    "var blob=new Blob([t],{type:'text/plain'});" +
    "var url=URL.createObjectURL(blob);" +
    "var a=document.createElement('a');a.href=url;" +
    "a.download='autologin_code_'+new Date()" +
    ".getTime()+'.txt';a.style.display='none';" +
    "document.body.appendChild(a);a.click();" +
    "document.body.removeChild(a);" +
    "URL.revokeObjectURL(url);" +
    "console.log('📁已生成文件下载，请查看下载文件夹')}catch(e){" +
    "console.error('❌文件下载失败:',e.message);" +
    "console.log('请手动复制以下代码:');console.log(t)}};"

  /** What follows the helpers in the "all" script (line 32). */
  const AllTail: string :=
    "f(b);console.log('✅完成');return '✅完成'}catch(e){" +
    "console.error('❌执行失败:',e.message);" +
    "return '❌执行失败: '+e.message}})()"

  /** The "all" script (line 32) up to the helpers. */
  const AllHead: string :=
    "(function(){try{var d={l:{},c:{}," +
    "u:location.href};try{for(var i=0;" +
    "i<localStorage.length;i++){" +
    "var k=localStorage.key(i);if(k)" +
    "d.l[k]=localStorage.getItem(k)}}catch(e){" +
    "console.warn('localStorage访问受限:',e.message)}try{" +
    "document.cookie.split(';').forEach(function(c){" +
    "var p=c.trim().split('=');if(p[0]&&p[1])" +
    "d.c[p[0]]=decodeURIComponent(p[1])})}catch(e){" +
    "console.warn('Cookie访问受限:',e.message)}" +
    "var b='javascript:(function(){try{" +
    "var d='+JSON.stringify(d)+';try{Object.keys(d.l)" +
    ".forEach(function(k){localStorage.setItem(k," +
    "d.l[k])})}catch(e){console.warn(\"localStorage写入受" +
    "限:\",e.message)}try{Object.keys(d.c)" +
    ".forEach(function(k){" +
    "document.cookie=k+\"=\"+encodeURIComponent(d.c[k])" +
    "+\"; path=/; max-age=86400\"})}catch(e){" +
    "console.warn(\"Cookie写入受限:\",e.message)}" +
    "console.log(\"✅完成\");setTimeout(function(){try{" +
    "location.href=\"'+d.u+'\"}catch(e){" +
    "console.log(\"请手动刷新页面\")}},500)}catch(e){" +
    "console.error(\"❌注入失败:\",e.message)}})()';"

  /** The "all" script (line 32): it takes no part of the configuration. */
  const HookAllScript: string := AllHead + HookClipboardCode + AllTail

  /** What follows the helpers in the single-key script (line 34). */
  const SingleTail: string :=
    "f(b);return '✅完成'}catch(e){" +
    "console.error('❌执行失败:',e.message);" +
    "return '❌执行失败: '+e.message}})()"

  /** The single-key script (line 34) up to the helpers, with its holes. */
  const HookSingleHead: CodeGenerator.Template := [
      CodeGenerator.Lit("(function(){try{var u=location.href,v;try{if(\""),
      CodeGenerator.Slot(CodeGenerator.SourceHole),
      CodeGenerator.Lit("\"===\"localStorage\"){v=localStorage.getItem(\""),
      CodeGenerator.Slot(CodeGenerator.KeyHole),
      CodeGenerator.Lit("\")}else{var c=document.cookie.split(';')" +
          ".find(function(x){return x.trim().startsWith(\""),
      CodeGenerator.Slot(CodeGenerator.KeyHole),
      CodeGenerator.Lit("=\")});v=c?decodeURIComponent(c.split('=')[1])" +
          ":null}}catch(e){console.error('数据访问失败:'," +
          "e.message);return}if(!v){console.error(\"❌未找到数据\")" +
          ";return}var b='javascript:(function(){try{" +
          "var u=\"'+u+'\",k=\""),
      CodeGenerator.Slot(CodeGenerator.KeyHole),
      CodeGenerator.Lit("\",v='+JSON.stringify(v)+';try{if(\""),
      CodeGenerator.Slot(CodeGenerator.SourceHole),
      CodeGenerator.Lit("\"===\"localStorage\"){localStorage.setItem(k,v)}" +
          "else{document.cookie=k+\"=\"+encodeURIComponent(v)" +
          "+\"; path=/; max-age=86400\"}}catch(e){" +
          "console.error(\"数据写入失败:\",e.message)}" +
          "console.log(\"✅完成\");setTimeout(function(){try{" +
          "location.href=u}catch(e){console.log(\"请手动刷新页面\")}" +
          "},500)}catch(e){console.error(\"❌注入失败:\"," +
          "e.message)}})()';")
    ]

  /** The single-key script (line 34) with its holes. */
  const HookSingle: CodeGenerator.Template :=
    HookSingleHead + [CodeGenerator.Lit(HookClipboardCode), CodeGenerator.Lit(SingleTail)]

  /** `code` (lines 31-35): the "all" script, or the single-key script with
      the source's name and `${config.key}` put in its holes. */
  function HookScript(config: Config): string {
    if config.source == All then HookAllScript
    else CodeGenerator.Render(HookSingle, config.source.Name(), Interpolated(config.key))
  }

  // ---------------------------------------------------------------------------
  // Properties of the script

  /** The script is decided by the source and, in single-key mode, by the key
      as the template literal writes it: the name, icon and description play
      no part. */
  lemma ScriptDependsOnSourceAndKey(a: Config, b: Config)
    requires a.source == b.source
    requires a.source == All || Interpolated(a.key) == Interpolated(b.key)
    ensures HookScript(a) == HookScript(b)
  {
  }

  /** The converse in single-key mode: the script gives its key away, so
      two configurations of the same source with different keys never share
      a script. */
  lemma ScriptDeterminesKey(a: Config, b: Config)
    requires a.source == b.source && a.source != All
    requires HookScript(a) == HookScript(b)
    ensures Interpolated(a.key) == Interpolated(b.key)
  {
    var p := HookSingle[..3];
    var q := HookSingle[4..];
    assert HookSingle == p + [CodeGenerator.Slot(CodeGenerator.KeyHole)] + q;
    assert p == [HookSingleHead[0], HookSingleHead[1], HookSingleHead[2]];
    CodeGenerator.KeyRecoverable(p, q, a.source.Name(), Interpolated(a.key), Interpolated(b.key));
  }

  /** A configuration without a key reads and writes the key "undefined". */
  lemma MissingKeyIsUndefined(config: Config)
    requires config.key.None?
    ensures HookScript(config) == HookScript(config.(key := Some("undefined")))
  {
  }

  lemma EndsWithConcat(head: string, tail: string)
    ensures EndsWith(head + tail, tail)
  {
    assert (head + tail)[|head|..] == tail;
  }

  lemma EndsWithBoth(head: string, middle: string, tail: string)
    ensures EndsWith(head + middle + tail, middle + tail)
  {
    assert head + middle + tail == head + (middle + tail);
    EndsWithConcat(head, middle + tail);
  }

  /** Both scripts end with the copy helpers and the call `f(b)` that hands
      code B to them. */
  lemma ScriptEndsWithHelpers(config: Config)
    ensures EndsWith(HookScript(config), HookClipboardCode + (if config.source == All then AllTail else SingleTail))
  {
    if config.source == All {
      EndsWithBoth(AllHead, HookClipboardCode, AllTail);
    } else {
      var source := config.source.Name();
      var key := Interpolated(config.key);
      var back := [CodeGenerator.Lit(HookClipboardCode), CodeGenerator.Lit(SingleTail)];
      CodeGenerator.RenderAppend(HookSingleHead, back, source, key);
      CodeGenerator.LitsRendered(HookClipboardCode, SingleTail, source, key);
      EndsWithConcat(CodeGenerator.Render(HookSingleHead, source, key), HookClipboardCode + SingleTail);
    }
  }

  // ---------------------------------------------------------------------------
  // The copy helpers

  /** The helpers run as `f(t)`: the clipboard interface, the textarea, then
      a file download; the console only when the download throws too. */
  function HookRoute(env: ClipboardManager.Env): (r: ClipboardManager.Delivery)
    ensures ClipboardManager.OnClipboard(r) <==> ClipboardManager.ApiCopies(env) || env.exec == ClipboardManager.Copied
    ensures !ClipboardManager.OnClipboard(r) ==>
      r == if env.downloadThrows then ClipboardManager.ConsoleLog else ClipboardManager.FileDownload
  {
    if ClipboardManager.ApiCopies(env) then ClipboardManager.ClipboardApi
    else if env.exec == ClipboardManager.Copied then ClipboardManager.ExecCommand
    else if env.downloadThrows then ClipboardManager.ConsoleLog
    else ClipboardManager.FileDownload
  }

  /** The hook's helpers reach the clipboard in the same browsers as the
      helpers of `getMinifiedCode` and as `copy`, and never drop the text. */
  lemma HelpersAgree(env: ClipboardManager.Env)
    ensures ClipboardManager.OnClipboard(HookRoute(env)) == ClipboardManager.OnClipboard(ClipboardManager.MinifiedRoute(env))
    ensures ClipboardManager.OnClipboard(HookRoute(env)) == ClipboardManager.OnClipboard(ClipboardManager.CopyRoute(env))
    ensures HookRoute(env) != ClipboardManager.Nowhere
    ensures HookRoute(env) == ClipboardManager.MinifiedRoute(env) <==>
      ClipboardManager.OnClipboard(HookRoute(env)) || env.downloadThrows
  {
  }

  // ---------------------------------------------------------------------------
  // The hook's state

  /** What a failed generation throws: an `Error` with its message, or any
      other value. */
  datatype Thrown = ErrorObject(message: string) | OtherValue

  /** `error instanceof Error ? error.message : '代码生成失败'` (line 45). */
  function FailureMessage(t: Thrown): string {
    match t
    case ErrorObject(m) => m
    case OtherValue => "代码生成失败"
  }

  /** The history entry a generation leaves: the script on success, an
      empty code and the failure's message otherwise (lines 40-50). */
  function Outcome(config: Config, fault: Option<Thrown>, now: nat, timestamp: string): (r: HistoryRecord)
    ensures r.configId == config.id && r.success == Some(fault.None?)
    ensures fault.None? ==> r.generatedCode == HookScript(config) && r.errorMessage.None?
    ensures fault.Some? ==> r.generatedCode == "" && r.errorMessage == Some(FailureMessage(fault.value))
  {
    match fault
    case None => History.NewRecord(config, HookScript(config), true, None, now, timestamp)
    case Some(t) => History.NewRecord(config, "", false, Some(FailureMessage(t)), now, timestamp)
  }

  /** `useCodeGenerator()`: the generated script, whether a generation is
      under way, and the configuration it was asked for. */
  class CodeGeneratorHook {
    var generatedCode: string
    var isGenerating: bool
    var selectedConfig: Option<Config>

    constructor()
      ensures generatedCode == "" && !isGenerating && selectedConfig.None?
    {
      generatedCode := "";
      isGenerating := false;
      selectedConfig := None;
    }

    /** `generateCode(config, addToHistory)` (lines 18-56). `fault` is what
        the awaited delay throws, if anything; on success the script is
        published, and either way the outcome is added to the history when
        one is passed, the fault is thrown on, and the flag is cleared. */
    method GenerateCode(config: Config, history: History.HistoryStore?, fault: Option<Thrown>, now: nat, timestamp: string)
      returns (raised: Option<Thrown>)
      requires history != null ==> history.Valid()
      modifies this, if history == null then {} else {history.cell, history.cell.store}
      ensures raised == fault
      ensures selectedConfig == Some(config) && !isGenerating
      ensures generatedCode == if fault.None? then HookScript(config) else old(generatedCode)
      ensures history != null ==>
        history.cell.storedValue == History.Prepend(Outcome(config, fault, now, timestamp), old(history.cell.storedValue)) &&
        history.cell.isClient == old(history.cell.isClient) && history.cell.Saved(history.cell.storedValue)
    {
      isGenerating := true;
      selectedConfig := Some(config);
      if fault.None? {
        var code := HookScript(config);
        generatedCode := code;
        if history != null {
          assert Outcome(config, fault, now, timestamp) == History.NewRecord(config, code, true, None, now, timestamp);
          history.AddToHistory(config, code, true, None, now, timestamp);
        }
      } else if history != null {
        var message := FailureMessage(fault.value);
        assert Outcome(config, fault, now, timestamp) == History.NewRecord(config, "", false, Some(message), now, timestamp);
        history.AddToHistory(config, "", false, Some(message), now, timestamp);
      }
      raised := fault;
      isGenerating := false;
    }
  }

  /** `handleUseHistoryRecord(record)` (src/app/page.tsx:84-89): the
      record's configuration is looked up among the presets and the custom
      configurations and generated again; a record whose configuration is
      gone does nothing. */
  method UseHistoryRecord(hook: CodeGeneratorHook, history: History.HistoryStore, record: HistoryRecord,
                          custom: seq<Config>, now: nat, timestamp: string)
    returns (used: Option<Config>)
    requires history.Valid()
    modifies hook, history.cell, history.cell.store
    ensures used == Presets.ReusedConfig(record, custom)
    ensures used.None? ==> unchanged(hook, history.cell, history.cell.store)
    ensures used.Some? ==> hook.generatedCode == HookScript(used.value) && hook.selectedConfig == used && !hook.isGenerating
    ensures used.Some? ==>
      history.cell.storedValue == History.Prepend(Outcome(used.value, None, now, timestamp), old(history.cell.storedValue)) &&
      history.cell.isClient == old(history.cell.isClient) && history.cell.Saved(history.cell.storedValue)
  {
    used := Presets.FindConfig(Presets.AllConfigs(custom), record.configId);
    if used.Some? {
      var _ := hook.GenerateCode(used.value, history, None, now, timestamp);
    }
  }

  /** Reusing the record of a preset generates the script the record holds. */
  lemma ReusedPresetRegenerates(record: HistoryRecord, custom: seq<Config>, i: nat)
    requires i < |Presets.PresetConfigs| && record.configId == Presets.PresetConfigs[i].id
    requires record.generatedCode == HookScript(Presets.PresetConfigs[i])
    ensures Presets.ReusedConfig(record, custom).Some?
    ensures HookScript(Presets.ReusedConfig(record, custom).value) == record.generatedCode
  {
    Presets.PresetRecordsReuse(record, custom, i);
  }
}
